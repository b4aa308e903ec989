/**
 What a pass of the CA reconciliation does, said of its inputs alone: when it goes through, which certificates the two
 bundles then hold, and what the status lists.
 */
module CaOutcome {
  import opened Wrappers
  import opened PemText
  import opened CaBundle
  import opened CaReconcile
  import opened CaRuns
  import opened StringOrder

  // ---------------------------------------------------------------- texts

  /** The blocks of a text, one behind the other. */
  function Blocks(text: Pem): seq<Decoded>
    decreases |text|
  {
    match Decode(text)
    case NoBlock => []
    case Block(kind, headers, bytes, rest) => [Block(kind, headers, bytes, rest)] + Blocks(rest)
  }

  /** A block that a bundle may hold: a certificate without headers whose bytes parse. */
  predicate IsCertificate(lib: Crypto, d: Decoded) {
    d.Block? && d.kind == "CERTIFICATE" && d.headers == 0 && lib.parse(d.bytes).Some?
  }

  /** Reading returns the certificates of the blocks up to the first that is none, and is good exactly if all are. */
  lemma {:induction false} ScanReadsBlocks(lib: Crypto, text: Pem)
    ensures var blocks, scanned := Blocks(text), Scan(lib, text);
      && |scanned.certs| <= |blocks|
      && (forall i :: 0 <= i < |scanned.certs| ==>
          IsCertificate(lib, blocks[i]) && Some(scanned.certs[i]) == lib.parse(blocks[i].bytes))
      && (|scanned.certs| < |blocks| ==> !IsCertificate(lib, blocks[|scanned.certs|]))
      && (scanned.ok <==> |scanned.certs| == |blocks|)
    decreases |text|
  {
    var d := Decode(text);
    if d.Block? && IsCertificate(lib, d) {
      ScanReadsBlocks(lib, d.rest);
    }
  }

  // ---------------------------------------------------------------- when a pass goes through

  /** A certificate has not expired when it is looked at. */
  ghost predicate AnyAlive(times: Times, xs: seq<X509>) {
    exists i :: 0 <= i < |xs| && !Expired(times(i), xs[i].notAfter)
  }

  /** The first certificate that has not expired when it is looked at. */
  ghost predicate FirstAlive(times: Times, xs: seq<X509>, i: nat) {
    && i < |xs| && !Expired(times(i), xs[i].notAfter)
    && forall j :: 0 <= j < i ==> Expired(times(j), xs[j].notAfter)
  }

  lemma {:induction false} FirstAbsorbed(lib: Crypto, times: Times, xs: seq<X509>) returns (i: nat)
    ensures Absorb(lib, times, [], xs) == [] <==> !AnyAlive(times, xs)
    ensures Absorb(lib, times, [], xs) != [] ==>
      FirstAlive(times, xs, i) && Absorb(lib, times, [], xs)[0].expire == xs[i].notAfter
    decreases |xs|
  {
    i := 0;
    if xs != [] {
      var init, last := xs[..|xs| - 1], xs[|xs| - 1];
      i := FirstAbsorbed(lib, times, init);
      if Absorb(lib, times, [], init) == [] {
        assert forall j :: 0 <= j < |init| ==> init[j] == xs[j] && Expired(times(j), init[j].notAfter);
        i := |init|;
      } else {
        var j :| 0 <= j < |init| && !Expired(times(j), init[j].notAfter);
        assert !Expired(times(j), xs[j].notAfter);
        assert forall j :: 0 <= j < |init| ==> init[j] == xs[j];
      }
    }
  }

  ghost predicate StepGoes(clock: Clock, k: nat, s: Source) {
    && !s.Unavailable?
    && (s.Mirror? || s.read.ok)
    && (s.Issuer? ==> AnyAlive(clock(3 * k + 2), s.read.certs))
  }

  /** An entry of the status: the name of the issuer and the expiry of its first certificate that has not expired. */
  ghost predicate IsEntry(clock: Clock, k: nat, name: string, xs: seq<X509>, e: CaStatus) {
    e.name == name && exists i: nat :: FirstAlive(clock(3 * k + 2), xs, i) && e.expires == xs[i].notAfter
  }

  lemma {:induction false} StepGoesIff(lib: Crypto, clock: Clock, k: nat, s: Source, b: Bundles)
    ensures Step(lib, clock, k, s, b).ok <==> StepGoes(clock, k, s)
    ensures StepGoes(clock, k, s) ==>
      var listed := Step(lib, clock, k, s, b).bundles.caList;
      if s.Issuer? then
        && |listed| == |b.caList| + 1 && listed[..|b.caList|] == b.caList
        && IsEntry(clock, k, s.name, s.read.certs, listed[|b.caList|])
      else listed == b.caList
  {
    if s.Issuer? {
      var i := FirstAbsorbed(lib, clock(3 * k + 2), s.read.certs);
    }
  }

  ghost predicate SourceGoes(clock: Clock, sources: seq<Source>, k: nat)
    requires k < |sources|
  {
    StepGoes(clock, k + 1, sources[k])
  }

  /** The sources from one position up to another all go. */
  ghost predicate RangeGoes(clock: Clock, sources: seq<Source>, from: nat, to: nat)
    requires to <= |sources|
  {
    forall k :: from <= k < to ==> SourceGoes(clock, sources, k)
  }

  lemma {:induction false} FoldGoesIff(lib: Crypto, clock: Clock, sources: seq<Source>, b: Bundles)
    ensures Fold(lib, clock, sources, b).ok <==> RangeGoes(clock, sources, 0, |sources|)
    decreases |sources|
  {
    if sources != [] {
      var init, last := sources[..|sources| - 1], sources[|sources| - 1];
      FoldGoesIff(lib, clock, init, b);
      assert forall k :: 0 <= k < |init| ==> SourceGoes(clock, init, k) == SourceGoes(clock, sources, k);
      assert RangeGoes(clock, sources, 0, |sources|)
        == (RangeGoes(clock, init, 0, |init|) && SourceGoes(clock, sources, |sources| - 1));
      var before := Fold(lib, clock, init, b);
      StepGoesIff(lib, clock, |sources|, last, before.bundles);
    }
  }

  /** The k-th source is listed at position k. */
  ghost predicate EntryAt(clock: Clock, sources: seq<Source>, listed: seq<CaStatus>, k: nat) {
    && k < |listed| && k < |sources| && sources[k].Issuer?
    && IsEntry(clock, k + 1, sources[k].name, sources[k].read.certs, listed[k])
  }

  /** Up to the n-th source, exactly the issuers, which are the first four, are listed in order. */
  ghost predicate ListedUpTo(clock: Clock, sources: seq<Source>, n: nat, listed: seq<CaStatus>)
    requires n <= |sources|
  {
    && |listed| == (if n < 4 then n else 4)
    && forall k :: 0 <= k < |listed| ==> EntryAt(clock, sources, listed, k)
  }

  lemma {:induction false} OneMoreListed(clock: Clock, sources: seq<Source>, n: nat, before: seq<CaStatus>,
      after: seq<CaStatus>)
    requires n < |sources| && ListedUpTo(clock, sources, n, before)
    requires if n < 4 then
        && sources[n].Issuer? && |after| == |before| + 1 && after[..|before|] == before
        && IsEntry(clock, n + 1, sources[n].name, sources[n].read.certs, after[|before|])
      else after == before
    ensures ListedUpTo(clock, sources, n + 1, after)
  {
    forall k | 0 <= k < |after|
      ensures EntryAt(clock, sources, after, k)
    {
      if k < |before| {
        assert EntryAt(clock, sources, before, k) && after[..|before|][k] == after[k];
      }
    }
  }

  /** A fold whose first four sources, and only these, are issuers lists them in order. */
  lemma {:induction false} FoldLists(lib: Crypto, clock: Clock, sources: seq<Source>, n: nat, b: Bundles)
    requires b.caList == [] && n <= |sources| && Fold(lib, clock, sources[..n], b).ok
    requires forall k :: 0 <= k < |sources| ==> (sources[k].Issuer? <==> k < 4)
    ensures ListedUpTo(clock, sources, n, Fold(lib, clock, sources[..n], b).bundles.caList)
  {
    if n > 0 {
      FoldNext(lib, clock, sources, n - 1, b);
      var before := Fold(lib, clock, sources[..n - 1], b);
      assert before.ok;
      FoldLists(lib, clock, sources, n - 1, b);
      StepGoesIff(lib, clock, n, sources[n - 1], before.bundles);
      OneMoreListed(clock, sources, n - 1, before.bundles.caList, Fold(lib, clock, sources[..n], b).bundles.caList);
    }
  }

  // ---------------------------------------------------------------- the inputs

  /** An issuer's CA can be had, reads, and has a certificate that has not expired when it is listed. */
  ghost predicate IssuerGoes(lib: Crypto, clock: Clock, k: nat, ca: CaInput) {
    && ca.pem.Found? && Scan(lib, ca.pem.value).ok
    && AnyAlive(clock(3 * k + 2), Scan(lib, ca.pem.value).certs)
  }

  /** The user's secret can be had, or there is none, and all its entries read. */
  ghost predicate UserGoes(lib: Crypto, user: UserSecret) {
    && !user.Unreadable?
    && (user.Provided? ==> forall name :: name in user.data ==>
      user.data[name].Some? && Scan(lib, user.data[name].value).ok)
  }

  /** The secret can be read and both its files, as far as there, read. */
  ghost predicate SecretGoes(lib: Crypto, readable: bool, secret: Option<BundleSecret>) {
    && readable
    && (secret.Some? && secret.value.full.Some? ==> Scan(lib, secret.value.full.value).ok)
    && (secret.Some? && secret.value.caOnly.Some? ==> Scan(lib, secret.value.caOnly.value).ok)
  }

  /** Everything that a pass needs of its inputs. The text of a mirror need not read. */
  ghost predicate Goes(lib: Crypto, clock: Clock, secret: Option<BundleSecret>, inp: Inputs) {
    && SecretGoes(lib, inp.secretReadable, secret)
    && IssuerGoes(lib, clock, 1, inp.ingress) && IssuerGoes(lib, clock, 2, inp.internalCa)
    && IssuerGoes(lib, clock, 3, inp.libvirt) && IssuerGoes(lib, clock, 4, inp.ovn)
    && UserGoes(lib, inp.user)
    && inp.mirrors.Found?
    && inp.operatorBundle.Found? && Scan(lib, inp.operatorBundle.value).ok
  }

  /** The sources of a pass, from where they stand. */
  ghost predicate Stands(lib: Crypto, inp: Inputs, order: seq<string>, sources: seq<Source>)
    requires ValidOrder(inp, order)
  {
    var users := UserSources(lib, inp.user, order);
    var mirrors := MirrorSources(lib, inp.mirrors, Hosts(inp.mirrors));
    && |sources| == 4 + |users| + |mirrors| + 1
    && sources[0] == IssuerSource(lib, inp.ingress) && sources[1] == IssuerSource(lib, inp.internalCa)
    && sources[2] == IssuerSource(lib, inp.libvirt) && sources[3] == IssuerSource(lib, inp.ovn)
    && (forall k :: 4 <= k < 4 + |users| ==> sources[k] == users[k - 4])
    && (forall k :: 4 + |users| <= k < 4 + |users| + |mirrors| ==> sources[k] == mirrors[k - 4 - |users|])
    && sources[4 + |users| + |mirrors|] == OperatorSource(lib, inp.operatorBundle)
  }

  lemma {:induction false} SourcesStand(lib: Crypto, inp: Inputs, order: seq<string>)
    requires ValidOrder(inp, order)
    ensures Stands(lib, inp, order, Sources(lib, inp, order))
  {
    SourcesLayout(lib, inp, order);
    var sources := Sources(lib, inp, order);
    var users := UserSources(lib, inp.user, order);
    var mirrors := MirrorSources(lib, inp.mirrors, Hosts(inp.mirrors));
    forall k | 4 <= k < 4 + |users|
      ensures sources[k] == users[k - 4]
    {
      assert sources[4..4 + |users|][k - 4] == sources[k];
    }
    forall k | 4 + |users| <= k < 4 + |users| + |mirrors|
      ensures sources[k] == mirrors[k - 4 - |users|]
    {
      assert sources[4 + |users|..4 + |users| + |mirrors|][k - 4 - |users|] == sources[k];
    }
  }

  lemma {:induction false} UsersGo(lib: Crypto, clock: Clock, inp: Inputs, order: seq<string>, sources: seq<Source>)
    requires ValidOrder(inp, order) && Stands(lib, inp, order, sources)
    ensures UserGoes(lib, inp.user)
      <==> RangeGoes(clock, sources, 4, 4 + |UserSources(lib, inp.user, order)|)
  {
    var users := UserSources(lib, inp.user, order);
    if inp.user.Provided? {
      forall k | 4 <= k < 4 + |order|
        ensures order[k - 4] in inp.user.data
        ensures SourceGoes(clock, sources, k)
          <==> inp.user.data[order[k - 4]].Some? && Scan(lib, inp.user.data[order[k - 4]].value).ok
      {
        assert order[k - 4] in order && sources[k] == users[k - 4];
      }
      if RangeGoes(clock, sources, 4, 4 + |users|) {
        forall name | name in inp.user.data
          ensures inp.user.data[name].Some? && Scan(lib, inp.user.data[name].value).ok
        {
          var i :| 0 <= i < |order| && order[i] == name;
          assert SourceGoes(clock, sources, 4 + i);
        }
      }
    } else if inp.user.Unreadable? {
      assert sources[4] == users[0];
      assert !SourceGoes(clock, sources, 4);
    }
  }

  lemma {:induction false} MirrorsGo(lib: Crypto, clock: Clock, inp: Inputs, order: seq<string>, sources: seq<Source>)
    requires ValidOrder(inp, order) && Stands(lib, inp, order, sources)
    ensures inp.mirrors.Found?
      <==> RangeGoes(clock, sources, 4 + |UserSources(lib, inp.user, order)|, |sources| - 1)
  {
    var from, mirrors := 4 + |UserSources(lib, inp.user, order)|, MirrorSources(lib, inp.mirrors, Hosts(inp.mirrors));
    if inp.mirrors.Found? {
      forall k | from <= k < |sources| - 1
        ensures SourceGoes(clock, sources, k)
      {
        assert sources[k] == mirrors[k - from];
      }
    } else {
      assert sources[from] == mirrors[0];
      assert !SourceGoes(clock, sources, from);
    }
  }

  lemma {:induction false} AllGoByPart(clock: Clock, sources: seq<Source>, users: nat)
    requires |sources| >= 4 + users + 1
    ensures RangeGoes(clock, sources, 0, |sources|)
      <==>
        && SourceGoes(clock, sources, 0) && SourceGoes(clock, sources, 1)
        && SourceGoes(clock, sources, 2) && SourceGoes(clock, sources, 3)
        && RangeGoes(clock, sources, 4, 4 + users)
        && RangeGoes(clock, sources, 4 + users, |sources| - 1)
        && SourceGoes(clock, sources, |sources| - 1)
  {
  }

  lemma {:induction false} IssuerGoesIff(lib: Crypto, clock: Clock, sources: seq<Source>, k: nat, ca: CaInput)
    requires k < |sources| && sources[k] == IssuerSource(lib, ca)
    ensures SourceGoes(clock, sources, k) <==> IssuerGoes(lib, clock, k + 1, ca)
  {
  }

  lemma {:induction false} EndsGo(lib: Crypto, clock: Clock, inp: Inputs, order: seq<string>, sources: seq<Source>)
    requires ValidOrder(inp, order) && Stands(lib, inp, order, sources)
    ensures SourceGoes(clock, sources, 0) <==> IssuerGoes(lib, clock, 1, inp.ingress)
    ensures SourceGoes(clock, sources, 1) <==> IssuerGoes(lib, clock, 2, inp.internalCa)
    ensures SourceGoes(clock, sources, 2) <==> IssuerGoes(lib, clock, 3, inp.libvirt)
    ensures SourceGoes(clock, sources, 3) <==> IssuerGoes(lib, clock, 4, inp.ovn)
    ensures SourceGoes(clock, sources, |sources| - 1)
      <==> inp.operatorBundle.Found? && Scan(lib, inp.operatorBundle.value).ok
  {
    IssuerGoesIff(lib, clock, sources, 0, inp.ingress);
    IssuerGoesIff(lib, clock, sources, 1, inp.internalCa);
    IssuerGoesIff(lib, clock, sources, 2, inp.libvirt);
    IssuerGoesIff(lib, clock, sources, 3, inp.ovn);
  }

  /** Exactly when a pass goes through, said of its inputs. */
  lemma {:induction false} PassGoesThroughIff(lib: Crypto, clock: Clock, secret: Option<BundleSecret>, inp: Inputs,
      order: seq<string>)
    requires ValidOrder(inp, order)
    ensures Pass(lib, clock, secret, inp, order).ok <==> Goes(lib, clock, secret, inp)
  {
    var sources := Sources(lib, inp, order);
    SourcesStand(lib, inp, order);
    FoldGoesIff(lib, clock, sources, Load(lib, clock, secret));
    AllGoByPart(clock, sources, |UserSources(lib, inp.user, order)|);
    EndsGo(lib, clock, inp, order, sources);
    UsersGo(lib, clock, inp, order, sources);
    MirrorsGo(lib, clock, inp, order, sources);
  }

  // ---------------------------------------------------------------- where the certificates come from

  lemma {:induction false} AbsorbedFrom(lib: Crypto, times: Times, certs: seq<CaCert>, xs: seq<X509>)
    ensures forall c :: c in Absorb(lib, times, certs, xs) ==> c in certs || c.cert in xs
    decreases |xs|
  {
    if xs != [] {
      AbsorbedFrom(lib, times, certs, xs[..|xs| - 1]);
    }
  }

  /** A certificate of the full bundle comes from what was there or from a source, one of the CA-only bundle from what
      was there or from an issuer. */
  ghost predicate ComesFrom(b: Bundles, after: Bundles, sources: seq<Source>) {
    && (forall c :: c in after.full ==>
      c in b.full || exists s :: s in sources && !s.Unavailable? && c.cert in s.read.certs)
    && (forall c :: c in after.caOnly ==>
      c in b.caOnly || exists s :: s in sources && s.Issuer? && c.cert in s.read.certs)
  }

  lemma {:induction false} StepFrom(lib: Crypto, clock: Clock, k: nat, s: Source, b: Bundles)
    ensures ComesFrom(b, Step(lib, clock, k, s, b).bundles, [s])
  {
    if !s.Unavailable? {
      AbsorbedFrom(lib, clock(3 * k), b.full, s.read.certs);
      AbsorbedFrom(lib, clock(3 * k + 1), b.caOnly, s.read.certs);
      assert s in [s];
    }
  }

  lemma {:induction false} FoldFrom(lib: Crypto, clock: Clock, sources: seq<Source>, b: Bundles)
    ensures ComesFrom(b, Fold(lib, clock, sources, b).bundles, sources)
    decreases |sources|
  {
    if sources != [] {
      var init, last := sources[..|sources| - 1], sources[|sources| - 1];
      var before := Fold(lib, clock, init, b);
      FoldFrom(lib, clock, init, b);
      assert last in sources && forall s :: s in init ==> s in sources;
      if before.ok {
        StepFrom(lib, clock, |sources|, last, before.bundles);
      }
    }
  }

  lemma {:induction false} LoadedFrom(lib: Crypto, clock: Clock, secret: Option<BundleSecret>)
    ensures forall c :: c in Load(lib, clock, secret).full ==> c.cert in FullCerts(lib, secret)
    ensures forall c :: c in Load(lib, clock, secret).caOnly ==> c.cert in CaOnlyCerts(lib, secret)
  {
    if secret.Some? {
      if secret.value.full.Some? {
        AbsorbedFrom(lib, clock(0), [], Scan(lib, secret.value.full.value).certs);
      }
      if secret.value.caOnly.Some? {
        AbsorbedFrom(lib, clock(1), [], Scan(lib, secret.value.caOnly.value).certs);
      }
    }
  }

  // ---------------------------------------------------------------- what a pass leaves

  /** The texts that a pass which goes through has parsed, each of its sources counting three times. */
  function TextsParsed(inp: Inputs, order: seq<string>): nat {
    var users := if inp.user.Provided? then |order| else 0;
    var mirrors := if inp.mirrors.Found? then |inp.mirrors.value| else 0;
    3 * (4 + users + mirrors + 1) + 3
  }

  lemma {:induction false} EndOfPass(lib: Crypto, clock: Clock, inp: Inputs, order: seq<string>)
    requires ValidOrder(inp, order) && inp.mirrors.Found? && !inp.user.Unreadable?
    ensures CaRuns.End(clock, Sources(lib, inp, order)) == clock(TextsParsed(inp, order))(0)
  {
    SourcesStand(lib, inp, order);
    ListingLength(Hosts(inp.mirrors), inp.mirrors.value.Keys);
  }

  /** The certificates of a text that have not expired at the end of the pass are all among those of a file. */
  ghost predicate AllIn(lib: Crypto, t: int, text: Pem, file: seq<X509>) {
    forall x :: x in Scan(lib, text).certs && !Expired(t, x.notAfter) ==> x in file
  }

  ghost predicate IssuerIn(lib: Crypto, t: int, ca: CaInput, full: seq<X509>, caOnly: seq<X509>) {
    ca.pem.Found? && AllIn(lib, t, ca.pem.value, full) && AllIn(lib, t, ca.pem.value, caOnly)
  }

  /** What the two files hold at least: all issuers in both, everything else in the full one. */
  ghost predicate HoldsAll(lib: Crypto, t: int, inp: Inputs, full: seq<X509>, caOnly: seq<X509>) {
    && IssuerIn(lib, t, inp.ingress, full, caOnly) && IssuerIn(lib, t, inp.internalCa, full, caOnly)
    && IssuerIn(lib, t, inp.libvirt, full, caOnly) && IssuerIn(lib, t, inp.ovn, full, caOnly)
    && (inp.user.Provided? ==> forall name :: name in inp.user.data && inp.user.data[name].Some? ==>
      AllIn(lib, t, inp.user.data[name].value, full))
    && (inp.mirrors.Found? ==>
      forall host :: host in inp.mirrors.value ==> AllIn(lib, t, inp.mirrors.value[host], full))
    && inp.operatorBundle.Found? && AllIn(lib, t, inp.operatorBundle.value, full)
  }

  ghost predicate FromIssuer(lib: Crypto, inp: Inputs, x: X509) {
    || (inp.ingress.pem.Found? && x in Scan(lib, inp.ingress.pem.value).certs)
    || (inp.internalCa.pem.Found? && x in Scan(lib, inp.internalCa.pem.value).certs)
    || (inp.libvirt.pem.Found? && x in Scan(lib, inp.libvirt.pem.value).certs)
    || (inp.ovn.pem.Found? && x in Scan(lib, inp.ovn.pem.value).certs)
  }

  ghost predicate FromAnything(lib: Crypto, inp: Inputs, x: X509) {
    || FromIssuer(lib, inp, x)
    || (inp.user.Provided? && exists name :: (
        && name in inp.user.data && inp.user.data[name].Some?
        && x in Scan(lib, inp.user.data[name].value).certs))
    || (inp.mirrors.Found? && exists host :: (
        host in inp.mirrors.value && x in Scan(lib, inp.mirrors.value[host]).certs))
    || (inp.operatorBundle.Found? && x in Scan(lib, inp.operatorBundle.value).certs)
  }

  /** And at most: the CA-only file is what was there and the issuers. */
  ghost predicate HoldsOnly(lib: Crypto, secret: Option<BundleSecret>, inp: Inputs, full: seq<X509>,
      caOnly: seq<X509>) {
    && (forall x :: x in full ==> x in FullCerts(lib, secret) || FromAnything(lib, inp, x))
    && (forall x :: x in caOnly ==> x in CaOnlyCerts(lib, secret) || FromIssuer(lib, inp, x))
  }

  ghost predicate Listed(lib: Crypto, clock: Clock, k: nat, ca: CaInput, e: CaStatus) {
    ca.pem.Found? && IsEntry(clock, k, ca.name, Scan(lib, ca.pem.value).certs, e)
  }

  /** The status names the four issuers in order, each with the expiry of its first certificate that has not expired. */
  ghost predicate ListsIssuers(lib: Crypto, clock: Clock, inp: Inputs, caList: seq<CaStatus>) {
    && |caList| == 4
    && Listed(lib, clock, 1, inp.ingress, caList[0]) && Listed(lib, clock, 2, inp.internalCa, caList[1])
    && Listed(lib, clock, 3, inp.libvirt, caList[2]) && Listed(lib, clock, 4, inp.ovn, caList[3])
  }

  lemma {:induction false} AllOfCovered(lib: Crypto, t: int, text: Pem, certs: seq<CaCert>)
    requires lib.Sound() && Wf(lib, certs) && AliveRaws(t, Scan(lib, text).certs) <= Raws(certs)
    ensures AllIn(lib, t, text, Certificates(certs))
  {
    ScanGenuine(lib, text);
    var xs := Scan(lib, text).certs;
    forall x | x in xs && !Expired(t, x.notAfter)
      ensures x in Certificates(certs)
    {
      var i :| 0 <= i < |xs| && xs[i] == x;
      assert xs[i].raw in AliveRaws(t, xs);
      CertInBundle(lib, certs, x);
    }
  }

  lemma {:induction false} PassHoldsAll(lib: Crypto, clock: Clock, secret: Option<BundleSecret>, inp: Inputs,
      order: seq<string>, t: int)
    requires lib.Sound() && Monotone(clock) && ValidOrder(inp, order)
    requires Pass(lib, clock, secret, inp, order).ok && CaRuns.End(clock, Sources(lib, inp, order)) <= t
    ensures var b := Pass(lib, clock, secret, inp, order).bundles;
      HoldsAll(lib, t, inp, Certificates(b.full), Certificates(b.caOnly))
  {
    var b, sources := Pass(lib, clock, secret, inp, order).bundles, Sources(lib, inp, order);
    PassEffect(lib, clock, secret, inp, order, t);
    PassGoesThroughIff(lib, clock, secret, inp, order);
    SourcesStand(lib, inp, order);
    forall k | 0 <= k < |sources|
      ensures Covered(t, sources[k], b)
    {
      assert sources[k] in sources;
    }
    IssuerOfCovered(lib, t, inp.ingress, b);
    IssuerOfCovered(lib, t, inp.internalCa, b);
    IssuerOfCovered(lib, t, inp.libvirt, b);
    IssuerOfCovered(lib, t, inp.ovn, b);
    UsersOfCovered(lib, t, inp, order, sources, b);
    MirrorsOfCovered(lib, t, inp, order, sources, b);
    AllOfCovered(lib, t, inp.operatorBundle.value, b.full);
  }

  lemma {:induction false} IssuerOfCovered(lib: Crypto, t: int, ca: CaInput, b: Bundles)
    requires lib.Sound() && WfBundles(lib, b) && Covered(t, IssuerSource(lib, ca), b)
    ensures IssuerIn(lib, t, ca, Certificates(b.full), Certificates(b.caOnly))
  {
    AllOfCovered(lib, t, ca.pem.value, b.full);
    AllOfCovered(lib, t, ca.pem.value, b.caOnly);
  }

  lemma {:induction false} UsersOfCovered(lib: Crypto, t: int, inp: Inputs, order: seq<string>, sources: seq<Source>,
      b: Bundles)
    requires lib.Sound() && WfBundles(lib, b) && ValidOrder(inp, order) && Stands(lib, inp, order, sources)
    requires forall k :: 0 <= k < |sources| ==> Covered(t, sources[k], b)
    ensures inp.user.Provided? ==> forall name :: name in inp.user.data && inp.user.data[name].Some? ==>
      AllIn(lib, t, inp.user.data[name].value, Certificates(b.full))
  {
    if inp.user.Provided? {
      forall name | name in inp.user.data && inp.user.data[name].Some?
        ensures AllIn(lib, t, inp.user.data[name].value, Certificates(b.full))
      {
        var i :| 0 <= i < |order| && order[i] == name;
        assert sources[4 + i] == UserSources(lib, inp.user, order)[i];
        AllOfCovered(lib, t, inp.user.data[name].value, b.full);
      }
    }
  }

  lemma {:induction false} MirrorStands(lib: Crypto, inp: Inputs, order: seq<string>, sources: seq<Source>,
      host: string) returns (k: nat)
    requires ValidOrder(inp, order) && Stands(lib, inp, order, sources)
    requires inp.mirrors.Found? && host in inp.mirrors.value
    ensures k < |sources| && sources[k] == Mirror(Read(lib, Some(inp.mirrors.value[host])))
  {
    var hosts := Hosts(inp.mirrors);
    assert host in hosts;
    var i :| 0 <= i < |hosts| && hosts[i] == host;
    k := 4 + |UserSources(lib, inp.user, order)| + i;
    assert sources[k] == MirrorSources(lib, inp.mirrors, hosts)[i];
  }

  lemma {:induction false} MirrorsOfCovered(lib: Crypto, t: int, inp: Inputs, order: seq<string>, sources: seq<Source>,
      b: Bundles)
    requires lib.Sound() && WfBundles(lib, b) && ValidOrder(inp, order) && Stands(lib, inp, order, sources)
    requires forall k :: 0 <= k < |sources| ==> Covered(t, sources[k], b)
    ensures inp.mirrors.Found? ==> forall host :: host in inp.mirrors.value ==>
      AllIn(lib, t, inp.mirrors.value[host], Certificates(b.full))
  {
    if inp.mirrors.Found? {
      forall host | host in inp.mirrors.value
        ensures AllIn(lib, t, inp.mirrors.value[host], Certificates(b.full))
      {
        var k := MirrorStands(lib, inp, order, sources, host);
        AllOfCovered(lib, t, inp.mirrors.value[host], b.full);
      }
    }
  }

  lemma {:induction false} UserIsInput(lib: Crypto, inp: Inputs, order: seq<string>, i: nat, x: X509)
    requires ValidOrder(inp, order) && i < |UserSources(lib, inp.user, order)|
    requires var s := UserSources(lib, inp.user, order)[i]; !s.Unavailable? && x in s.read.certs
    ensures FromAnything(lib, inp, x)
  {
    var name := order[i];
    assert name in order;
    assert x in Scan(lib, inp.user.data[name].value).certs;
  }

  lemma {:induction false} MirrorIsInput(lib: Crypto, inp: Inputs, i: nat, x: X509)
    requires i < |MirrorSources(lib, inp.mirrors, Hosts(inp.mirrors))|
    requires var s := MirrorSources(lib, inp.mirrors, Hosts(inp.mirrors))[i]; !s.Unavailable? && x in s.read.certs
    ensures FromAnything(lib, inp, x)
  {
    var host := Hosts(inp.mirrors)[i];
    assert host in Hosts(inp.mirrors);
    assert x in Scan(lib, inp.mirrors.value[host]).certs;
  }

  lemma {:induction false} IssuerIsInput(lib: Crypto, inp: Inputs, ca: CaInput, x: X509)
    requires ca == inp.ingress || ca == inp.internalCa || ca == inp.libvirt || ca == inp.ovn
    requires var s := IssuerSource(lib, ca); !s.Unavailable? && x in s.read.certs
    ensures FromIssuer(lib, inp, x)
  {
  }

  lemma {:induction false} PositionIsInput(lib: Crypto, inp: Inputs, order: seq<string>, sources: seq<Source>, k: nat,
      x: X509)
    requires ValidOrder(inp, order) && Stands(lib, inp, order, sources)
    requires k < |sources| && !sources[k].Unavailable? && x in sources[k].read.certs
    ensures if k < 4 then FromIssuer(lib, inp, x) else FromAnything(lib, inp, x)
  {
    if k < 4 {
      var issuers := [inp.ingress, inp.internalCa, inp.libvirt, inp.ovn];
      IssuerIsInput(lib, inp, issuers[k], x);
    } else {
      OtherPositionIsInput(lib, inp, order, sources, k, x);
    }
  }

  lemma {:induction false} OtherPositionIsInput(lib: Crypto, inp: Inputs, order: seq<string>, sources: seq<Source>,
      k: nat, x: X509)
    requires ValidOrder(inp, order) && Stands(lib, inp, order, sources)
    requires 4 <= k < |sources| && !sources[k].Unavailable? && x in sources[k].read.certs
    ensures FromAnything(lib, inp, x)
  {
    var users := |UserSources(lib, inp.user, order)|;
    if k < 4 + users {
      UserIsInput(lib, inp, order, k - 4, x);
    } else if k < |sources| - 1 {
      MirrorIsInput(lib, inp, k - 4 - users, x);
    } else {
      assert x in Scan(lib, inp.operatorBundle.value).certs;
    }
  }

  /** The source that a certificate comes from, in the words of the inputs. */
  lemma {:induction false} SourceIsInput(lib: Crypto, inp: Inputs, order: seq<string>, sources: seq<Source>, s: Source,
      x: X509)
    requires ValidOrder(inp, order) && Stands(lib, inp, order, sources)
    requires s in sources && !s.Unavailable? && x in s.read.certs
    ensures FromAnything(lib, inp, x) && (s.Issuer? ==> FromIssuer(lib, inp, x))
  {
    OnlyIssuersFirst(lib, inp, order, sources);
    var k :| 0 <= k < |sources| && sources[k] == s;
    PositionIsInput(lib, inp, order, sources, k, x);
  }

  lemma {:induction false} OnlyIssuersFirst(lib: Crypto, inp: Inputs, order: seq<string>, sources: seq<Source>)
    requires ValidOrder(inp, order) && Stands(lib, inp, order, sources)
    ensures forall k :: 4 <= k < |sources| ==> !sources[k].Issuer?
  {
    var users, mirrors := UserSources(lib, inp.user, order), MirrorSources(lib, inp.mirrors, Hosts(inp.mirrors));
    forall k | 4 <= k < |sources|
      ensures !sources[k].Issuer?
    {
      if k < 4 + |users| {
        assert sources[k] == users[k - 4];
      } else if k < |sources| - 1 {
        assert sources[k] == mirrors[k - 4 - |users|];
      }
    }
  }

  lemma {:induction false} PassHoldsOnly(lib: Crypto, clock: Clock, secret: Option<BundleSecret>, inp: Inputs,
      order: seq<string>)
    requires ValidOrder(inp, order) && Pass(lib, clock, secret, inp, order).ok
    ensures var b := Pass(lib, clock, secret, inp, order).bundles;
      HoldsOnly(lib, secret, inp, Certificates(b.full), Certificates(b.caOnly))
  {
    var b, sources := Pass(lib, clock, secret, inp, order).bundles, Sources(lib, inp, order);
    var start := Load(lib, clock, secret);
    SourcesStand(lib, inp, order);
    FoldFrom(lib, clock, sources, start);
    LoadedFrom(lib, clock, secret);
    forall x | x in Certificates(b.full)
      ensures x in FullCerts(lib, secret) || FromAnything(lib, inp, x)
    {
      var i :| 0 <= i < |b.full| && Certificates(b.full)[i] == x;
      assert b.full[i] in b.full;
      if b.full[i] !in start.full {
        var s :| s in sources && !s.Unavailable? && b.full[i].cert in s.read.certs;
        SourceIsInput(lib, inp, order, sources, s, x);
      }
    }
    forall x | x in Certificates(b.caOnly)
      ensures x in CaOnlyCerts(lib, secret) || FromIssuer(lib, inp, x)
    {
      var i :| 0 <= i < |b.caOnly| && Certificates(b.caOnly)[i] == x;
      assert b.caOnly[i] in b.caOnly;
      if b.caOnly[i] !in start.caOnly {
        var s :| s in sources && s.Issuer? && b.caOnly[i].cert in s.read.certs;
        SourceIsInput(lib, inp, order, sources, s, x);
      }
    }
  }

  lemma {:induction false} EntriesAreListed(lib: Crypto, clock: Clock, inp: Inputs, order: seq<string>,
      sources: seq<Source>, listed: seq<CaStatus>)
    requires ValidOrder(inp, order) && Stands(lib, inp, order, sources)
    requires |listed| == 4 && forall k :: 0 <= k < |listed| ==> EntryAt(clock, sources, listed, k)
    ensures ListsIssuers(lib, clock, inp, listed)
  {
    assert EntryAt(clock, sources, listed, 0) && EntryAt(clock, sources, listed, 1);
    assert EntryAt(clock, sources, listed, 2) && EntryAt(clock, sources, listed, 3);
  }

  lemma {:induction false} FirstAreIssuers(lib: Crypto, inp: Inputs, order: seq<string>, sources: seq<Source>)
    requires ValidOrder(inp, order) && Stands(lib, inp, order, sources)
    requires inp.ingress.pem.Found? && inp.internalCa.pem.Found? && inp.libvirt.pem.Found? && inp.ovn.pem.Found?
    ensures |sources| >= 4 && forall k :: 0 <= k < |sources| ==> (sources[k].Issuer? <==> k < 4)
  {
    OnlyIssuersFirst(lib, inp, order, sources);
  }

  lemma {:induction false} PassLists(lib: Crypto, clock: Clock, secret: Option<BundleSecret>, inp: Inputs,
      order: seq<string>)
    requires ValidOrder(inp, order) && Pass(lib, clock, secret, inp, order).ok
    ensures ListsIssuers(lib, clock, inp, Pass(lib, clock, secret, inp, order).bundles.caList)
  {
    var sources := Sources(lib, inp, order);
    SourcesStand(lib, inp, order);
    PassGoesThroughIff(lib, clock, secret, inp, order);
    FirstAreIssuers(lib, inp, order, sources);
    assert sources[..|sources|] == sources;
    FoldLists(lib, clock, sources, |sources|, Load(lib, clock, secret));
    EntriesAreListed(lib, clock, inp, order, sources, Pass(lib, clock, secret, inp, order).bundles.caList);
  }

  /**
   What a pass leaves. If it goes through and its result is stored, the full file holds every unexpired certificate of
   every input and the CA-only file those of the four issuers; neither holds anything else but what it held before; and
   the status lists the issuers. If not, the secret is as it was.
   */
  lemma {:induction false} PassOutcome(lib: Crypto, clock: Clock, secret: Option<BundleSecret>, inp: Inputs,
      order: seq<string>, stored: bool, t: int)
    requires lib.Sound() && Monotone(clock) && ValidOrder(inp, order) && clock(TextsParsed(inp, order))(0) <= t
    ensures var after := SecretAfter(lib, clock, secret, inp, order, stored);
      && (Goes(lib, clock, secret, inp) ==>
        ListsIssuers(lib, clock, inp, Pass(lib, clock, secret, inp, order).bundles.caList))
      && if Goes(lib, clock, secret, inp) && stored then (
           && after.Some? && after.value.full.Some? && after.value.caOnly.Some?
           && var full, caOnly := Scan(lib, after.value.full.value), Scan(lib, after.value.caOnly.value);
              && full.ok && caOnly.ok
              && HoldsAll(lib, t, inp, full.certs, caOnly.certs)
              && HoldsOnly(lib, secret, inp, full.certs, caOnly.certs))
         else after == secret
  {
    PassGoesThroughIff(lib, clock, secret, inp, order);
    if Goes(lib, clock, secret, inp) {
      PassLists(lib, clock, secret, inp, order);
      if stored {
        var b := Pass(lib, clock, secret, inp, order).bundles;
        EndOfPass(lib, clock, inp, order);
        PassEffect(lib, clock, secret, inp, order, t);
        ScanPrint(lib, b.full);
        ScanPrint(lib, b.caOnly);
        PassHoldsAll(lib, clock, secret, inp, order, t);
        PassHoldsOnly(lib, clock, secret, inp, order);
      }
    }
  }
}
