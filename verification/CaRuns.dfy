/**
 What holds over repeated passes of the CA reconciliation: a second pass over unchanged inputs writes the same
 text, no certificate leaves the bundle before it expires, and the CA-only bundle stays inside the full one.
 */
module CaRuns {
  import opened Wrappers
  import opened PemText
  import opened CaBundle
  import opened CaReconcile

  ghost predicate WfBundles(lib: Crypto, b: Bundles) {
    Wf(lib, b.full) && Wf(lib, b.caOnly)
  }

  ghost predicate Subset(b: Bundles) {
    Raws(b.caOnly) <= Raws(b.full)
  }

  ghost predicate GenuineSource(lib: Crypto, s: Source) {
    !s.Unavailable? ==> Genuine(lib, s.read.certs)
  }

  ghost predicate GenuineSources(lib: Crypto, sources: seq<Source>) {
    forall s :: s in sources ==> GenuineSource(lib, s)
  }

  lemma {:induction false} ReadGenuine(lib: Crypto, text: Option<Pem>)
    requires lib.Sound()
    ensures Genuine(lib, Read(lib, text).certs)
  {
    if text.Some? {
      ScanGenuine(lib, text.value);
    }
  }

  lemma {:induction false} SourcesGenuine(lib: Crypto, inp: Inputs, order: seq<string>)
    requires lib.Sound() && ValidOrder(inp, order)
    ensures GenuineSources(lib, Sources(lib, inp, order))
  {
    forall text: Option<Pem> ensures Genuine(lib, Read(lib, text).certs) {
      ReadGenuine(lib, text);
    }
  }

  /** Certificates looked at later have not become unexpired. */
  lemma {:induction false} ReadShrinks(early: Times, late: Times, xs: seq<X509>)
    requires forall i: nat :: early(i) <= late(i)
    ensures ReadRaws(late, xs) <= ReadRaws(early, xs)
  {
    forall i | 0 <= i < |xs| && !Expired(late(i), xs[i].notAfter)
      ensures !Expired(early(i), xs[i].notAfter)
    {
      if Expired(early(i), xs[i].notAfter) {
        ExpiredForever(early(i), late(i), xs[i].notAfter);
      }
    }
  }

  /** The certificates of xs that have not expired at one time. */
  ghost function AliveRaws(now: int, xs: seq<X509>): set<Bytes> {
    ReadRaws(i => now, xs)
  }

  lemma {:induction false} InOrder(clock: Clock, k: nat, i: nat, l: nat, j: nat)
    requires Monotone(clock) && (k < l || (k == l && i <= j))
    ensures clock(k)(i) <= clock(l)(j)
  {
    assert At(clock, k, i) <= At(clock, l, j);
  }

  /** What is read of a text early is all there is to read of it late. */
  lemma {:induction false} LaterTextReadsLess(clock: Clock, k: nat, l: nat, xs: seq<X509>)
    requires Monotone(clock) && k <= l
    ensures ReadRaws(clock(l), xs) <= ReadRaws(clock(k), xs)
  {
    forall i: nat
      ensures clock(k)(i) <= clock(l)(i)
    {
      InOrder(clock, k, i, l, i);
    }
    ReadShrinks(clock(k), clock(l), xs);
  }

  lemma {:induction false} AliveLaterWasRead(clock: Clock, k: nat, xs: seq<X509>, t: int)
    requires Monotone(clock) && clock(k + 1)(0) <= t
    ensures AliveRaws(t, xs) <= ReadRaws(clock(k), xs)
  {
    forall i: nat
      ensures clock(k)(i) <= t
    {
      InOrder(clock, k, i, k + 1, 0);
    }
    ReadShrinks(clock(k), i => t, xs);
  }

  // ---------------------------------------------------------------- one pass

  /** What one step does to the two bundles. */
  lemma {:induction false} StepEffect(lib: Crypto, clock: Clock, k: nat, s: Source, b: Bundles)
    requires lib.Sound() && Monotone(clock) && WfBundles(lib, b) && GenuineSource(lib, s)
    ensures var p := Step(lib, clock, k, s, b);
      && WfBundles(lib, p.bundles)
      && b.full <= p.bundles.full && b.caOnly <= p.bundles.caOnly
      && (Subset(b) ==> Subset(p.bundles))
      && (!s.Unavailable? ==> Raws(p.bundles.full) == Raws(b.full) + ReadRaws(clock(3 * k), s.read.certs))
      && (p.ok ==> !s.Unavailable? && (s.Mirror? || s.read.ok))
      && (p.ok && s.Issuer? ==>
        && Raws(p.bundles.caOnly) == Raws(b.caOnly) + ReadRaws(clock(3 * k + 1), s.read.certs)
        && ReadRaws(clock(3 * k + 2), s.read.certs) != {})
  {
    if !s.Unavailable? {
      var xs := s.read.certs;
      AbsorbAddsTheUnexpired(lib, clock(3 * k), b.full, xs);
      AbsorbAddsTheUnexpired(lib, clock(3 * k + 1), b.caOnly, xs);
      AbsorbAddsTheUnexpired(lib, clock(3 * k + 2), [], xs);
      LaterTextReadsLess(clock, 3 * k, 3 * k + 1, xs);
      assert Raws([]) == {};
      var status := Absorb(lib, clock(3 * k + 2), [], xs);
      if status != [] {
        assert status[0] in status;
        assert status[0].cert.raw in Raws(status);
      }
    }
  }

  /** Looked at at these times, the source has nothing to add to b, and no reason to stop the pass. */
  ghost predicate Settled(times: Times, s: Source, b: Bundles) {
    && !s.Unavailable?
    && (s.Mirror? || s.read.ok)
    && ReadRaws(times, s.read.certs) <= Raws(b.full)
    && (s.Issuer? ==> ReadRaws(times, s.read.certs) <= Raws(b.caOnly) && ReadRaws(times, s.read.certs) != {})
  }

  /** A source as a pass that went through leaves it: read completely by the time t. */
  ghost predicate Covered(t: int, s: Source, b: Bundles) {
    && !s.Unavailable?
    && (s.Mirror? || s.read.ok)
    && AliveRaws(t, s.read.certs) <= Raws(b.full)
    && (s.Issuer? ==>
      && AliveRaws(t, s.read.certs) <= Raws(b.caOnly)
      && exists x :: x in s.read.certs && x.raw in Raws(b.full))
  }

  /** The last text parsed in a pass over these sources. */
  function LastText(sources: seq<Source>): nat {
    3 * |sources| + 2
  }

  /** A time at which such a pass has looked at everything. */
  function End(clock: Clock, sources: seq<Source>): int {
    clock(LastText(sources) + 1)(0)
  }

  lemma {:induction false} FoldEffect(lib: Crypto, clock: Clock, sources: seq<Source>, b: Bundles, t: int)
    requires lib.Sound() && Monotone(clock) && WfBundles(lib, b) && GenuineSources(lib, sources)
    requires End(clock, sources) <= t
    ensures var p := Fold(lib, clock, sources, b);
      && WfBundles(lib, p.bundles)
      && b.full <= p.bundles.full && b.caOnly <= p.bundles.caOnly
      && (Subset(b) ==> Subset(p.bundles))
      && (p.ok ==> forall s :: s in sources ==> Covered(t, s, p.bundles))
    decreases |sources|
  {
    if sources != [] {
      var init, last, n := sources[..|sources| - 1], sources[|sources| - 1], |sources|;
      var before := Fold(lib, clock, init, b);
      assert last in sources;
      InOrder(clock, 3 * |init| + 3, 0, 3 * n + 3, 0);
      FoldEffect(lib, clock, init, b, t);
      if before.ok {
        StepEffect(lib, clock, n, last, before.bundles);
        var p := Step(lib, clock, n, last, before.bundles);
        PrefixRaws(before.bundles.full, p.bundles.full);
        PrefixRaws(before.bundles.caOnly, p.bundles.caOnly);
        if p.ok {
          LastIsCovered(lib, clock, n, last, before.bundles, t);
          forall s | s in sources ensures Covered(t, s, p.bundles) {
            assert s in init || s == last;
          }
        }
      }
    }
  }

  lemma {:induction false} PrefixRaws(a: seq<CaCert>, b: seq<CaCert>)
    requires a <= b
    ensures Raws(a) <= Raws(b)
  {
    assert forall c :: c in a ==> c in b;
  }

  lemma {:induction false} LastIsCovered(lib: Crypto, clock: Clock, k: nat, s: Source, b: Bundles, t: int)
    requires lib.Sound() && Monotone(clock) && WfBundles(lib, b) && GenuineSource(lib, s)
    requires Step(lib, clock, k, s, b).ok && clock(3 * k + 3)(0) <= t
    ensures Covered(t, s, Step(lib, clock, k, s, b).bundles)
  {
    StepEffect(lib, clock, k, s, b);
    ReadIsCovered(clock, 3 * k, s, b, Step(lib, clock, k, s, b).bundles, t);
  }

  lemma {:induction false} ReadIsCovered(clock: Clock, k: nat, s: Source, b: Bundles, after: Bundles, t: int)
    requires Monotone(clock) && clock(k + 3)(0) <= t
    requires !s.Unavailable? && (s.Mirror? || s.read.ok)
    requires Raws(after.full) == Raws(b.full) + ReadRaws(clock(k), s.read.certs)
    requires s.Issuer? ==> (
      && Raws(after.caOnly) == Raws(b.caOnly) + ReadRaws(clock(k + 1), s.read.certs)
      && ReadRaws(clock(k + 2), s.read.certs) != {})
    ensures Covered(t, s, after)
  {
    var xs := s.read.certs;
    InOrder(clock, k + 1, 0, k + 3, 0);
    InOrder(clock, k + 2, 0, k + 3, 0);
    AliveLaterWasRead(clock, k, xs, t);
    AliveLaterWasRead(clock, k + 1, xs, t);
    if s.Issuer? {
      LaterTextReadsLess(clock, k, k + 2, xs);
      SomeIsRead(clock(k + 2), xs, Raws(after.full));
    }
  }

  lemma {:induction false} SomeIsRead(times: Times, xs: seq<X509>, raws: set<Bytes>)
    requires ReadRaws(times, xs) != {} && ReadRaws(times, xs) <= raws
    ensures exists x :: x in xs && x.raw in raws
  {
    var raw :| raw in ReadRaws(times, xs);
    var i :| 0 <= i < |xs| && !Expired(times(i), xs[i].notAfter) && xs[i].raw == raw;
    assert xs[i] in xs;
  }

  // ---------------------------------------------------------------- the second pass writes the same text

  lemma {:induction false} StepOfSettledIsNoOp(lib: Crypto, clock: Clock, k: nat, s: Source, b: Bundles)
    requires lib.Sound() && WfBundles(lib, b) && GenuineSource(lib, s)
    requires Settled(clock(3 * k), s, b) && Settled(clock(3 * k + 1), s, b) && Settled(clock(3 * k + 2), s, b)
    ensures var p := Step(lib, clock, k, s, b);
      p.ok && p.bundles.full == b.full && p.bundles.caOnly == b.caOnly
  {
    var xs := s.read.certs;
    AbsorbOfKnownIsNoOp(lib, clock(3 * k), b.full, xs);
    if s.Issuer? {
      AbsorbOfKnownIsNoOp(lib, clock(3 * k + 1), b.caOnly, xs);
      AbsorbAddsTheUnexpired(lib, clock(3 * k + 2), [], xs);
      assert Raws([]) == {};
    }
  }

  lemma {:induction false} FoldOfSettledIsNoOp(lib: Crypto, clock: Clock, sources: seq<Source>, b: Bundles)
    requires lib.Sound() && WfBundles(lib, b) && GenuineSources(lib, sources)
    requires forall s, i: nat :: s in sources && i <= LastText(sources) ==> Settled(clock(i), s, b)
    ensures var p := Fold(lib, clock, sources, b);
      p.ok && p.bundles.full == b.full && p.bundles.caOnly == b.caOnly
    decreases |sources|
  {
    if sources != [] {
      var init, last, n := sources[..|sources| - 1], sources[|sources| - 1], |sources|;
      assert last in sources && forall s :: s in init ==> s in sources;
      FoldOfSettledIsNoOp(lib, clock, init, b);
      var before := Fold(lib, clock, init, b).bundles;
      assert Settled(clock(3 * n), last, before) && Settled(clock(3 * n + 1), last, before)
        && Settled(clock(3 * n + 2), last, before) by {
        assert Settled(clock(3 * n), last, b)
          && Settled(clock(3 * n + 1), last, b) && Settled(clock(3 * n + 2), last, b);
      }
      StepOfSettledIsNoOp(lib, clock, n, last, before);
    }
  }

  /** Ranging over the user's secret in another order gives the same sources in another order. */
  lemma {:induction false} SameSources(lib: Crypto, inp: Inputs, order: seq<string>, order': seq<string>)
    requires ValidOrder(inp, order) && ValidOrder(inp, order')
    ensures forall s :: s in Sources(lib, inp, order') ==> s in Sources(lib, inp, order)
  {
    var mine, theirs := UserSources(lib, inp.user, order), UserSources(lib, inp.user, order');
    if inp.user.Provided? {
      forall i | 0 <= i < |order'| ensures theirs[i] in mine {
        assert order'[i] in order';
        assert order'[i] in order;
        var j :| 0 <= j < |order| && order[j] == order'[i];
        assert mine[j] == theirs[i];
      }
    }
    assert forall s :: s in theirs ==> s in mine;
  }

  lemma {:induction false} LoadOfWritten(lib: Crypto, clock: Clock, b: Bundles)
    requires lib.Sound() && WfBundles(lib, b)
    ensures LoadOk(lib, true, Some(Write(b)))
    ensures Load(lib, clock, Some(Write(b))) == Bundles(Alive(clock(0), b.full), Alive(clock(1), b.caOnly), [])
  {
    ScanPrint(lib, b.full);
    ScanPrint(lib, b.caOnly);
    ReloadKeepsTheUnexpired(lib, clock(0), b.full);
    ReloadKeepsTheUnexpired(lib, clock(1), b.caOnly);
  }

  lemma {:induction false} LoadWf(lib: Crypto, clock: Clock, secret: Option<BundleSecret>)
    requires lib.Sound()
    ensures WfBundles(lib, Load(lib, clock, secret))
  {
    if secret.Some? {
      if secret.value.full.Some? {
        ScanGenuine(lib, secret.value.full.value);
        AbsorbAddsTheUnexpired(lib, clock(0), [], Scan(lib, secret.value.full.value).certs);
      }
      if secret.value.caOnly.Some? {
        ScanGenuine(lib, secret.value.caOnly.value);
        AbsorbAddsTheUnexpired(lib, clock(1), [], Scan(lib, secret.value.caOnly.value).certs);
      }
    }
  }

  /** The bundles at the end of a pass, with every source read by the time t. */
  lemma {:induction false} PassEffect(lib: Crypto, clock: Clock, secret: Option<BundleSecret>, inp: Inputs,
      order: seq<string>, t: int)
    requires lib.Sound() && Monotone(clock) && ValidOrder(inp, order)
    requires End(clock, Sources(lib, inp, order)) <= t
    ensures var p := Pass(lib, clock, secret, inp, order);
      && WfBundles(lib, p.bundles)
      && (Subset(Load(lib, clock, secret)) ==> Subset(p.bundles))
      && (p.ok ==> Raws(Load(lib, clock, secret).full) <= Raws(p.bundles.full))
      && (p.ok ==> Raws(Load(lib, clock, secret).caOnly) <= Raws(p.bundles.caOnly))
      && (p.ok ==> forall s :: s in Sources(lib, inp, order) ==> Covered(t, s, p.bundles))
  {
    LoadWf(lib, clock, secret);
    SourcesGenuine(lib, inp, order);
    var b, sources := Load(lib, clock, secret), Sources(lib, inp, order);
    FoldEffect(lib, clock, sources, b, t);
    var p := Fold(lib, clock, sources, b);
    PrefixRaws(b.full, p.bundles.full);
    PrefixRaws(b.caOnly, p.bundles.caOnly);
  }

  lemma {:induction false} CoveredIsSettled(lib: Crypto, t: int, times: Times, s: Source, b: Bundles)
    requires WfBundles(lib, b) && GenuineSource(lib, s) && Covered(t, s, b)
    requires forall i: nat :: t <= times(i)
    requires forall c, i: nat :: c in b.full ==> !Expired(times(i), c.expire)
    ensures Settled(times, s, b)
  {
    ReadShrinks(i => t, times, s.read.certs);
    if s.Issuer? {
      var x :| x in s.read.certs && x.raw in Raws(b.full);
      var c :| c in b.full && c.cert.raw == x.raw;
      assert Entry(lib, c) && c.cert == x;
      var i :| 0 <= i < |s.read.certs| && s.read.certs[i] == x;
      assert s.read.certs[i].raw in ReadRaws(times, s.read.certs);
    }
  }

  lemma {:induction false} AliveUpTo(clock: Clock, last: nat, certs: seq<CaCert>)
    requires Monotone(clock) && forall c :: c in certs ==> !Expired(clock(last + 1)(0), c.expire)
    ensures forall c, k: nat, i: nat :: c in certs && k <= last ==> !Expired(clock(k)(i), c.expire)
  {
    forall c, k: nat, i: nat | c in certs && k <= last
      ensures !Expired(clock(k)(i), c.expire)
    {
      InOrder(clock, k, i, last + 1, 0);
      if Expired(clock(k)(i), c.expire) {
        ExpiredForever(clock(k)(i), clock(last + 1)(0), c.expire);
      }
    }
  }

  /** A source that a first pass covered is settled for every text of a later one. */
  lemma {:induction false} SettledLater(lib: Crypto, clock: Clock, last: nat, k: nat, s: Source, b: Bundles)
    requires WfBundles(lib, b) && GenuineSource(lib, s) && Covered(clock(0)(0), s, b) && Monotone(clock) && k <= last
    requires forall c :: c in b.full ==> !Expired(clock(last + 1)(0), c.expire)
    ensures Settled(clock(k), s, b)
  {
    AliveUpTo(clock, last, b.full);
    forall i: nat
      ensures clock(0)(0) <= clock(k)(i)
    {
      InOrder(clock, 0, 0, k, i);
    }
    CoveredIsSettled(lib, clock(0)(0), clock(k), s, b);
  }

  lemma {:induction false} LoadOfUnexpired(lib: Crypto, clock: Clock, last: nat, b: Bundles)
    requires lib.Sound() && WfBundles(lib, b) && Monotone(clock) && last >= 1
    requires forall c :: c in b.full || c in b.caOnly ==> !Expired(clock(last + 1)(0), c.expire)
    ensures LoadOk(lib, true, Some(Write(b)))
    ensures var start := Load(lib, clock, Some(Write(b))); start.full == b.full && start.caOnly == b.caOnly
  {
    AliveUpTo(clock, last, b.full);
    AliveUpTo(clock, last, b.caOnly);
    LoadOfWritten(lib, clock, b);
    AliveIsPart(clock(0), b.full);
    AliveIsPart(clock(1), b.caOnly);
  }

  /** A pass over what an earlier one wrote, when that covered all sources and none of it expires. */
  lemma {:induction false} FoldOfCovered(lib: Crypto, clock: Clock, sources: seq<Source>, b: Bundles)
    requires lib.Sound() && Monotone(clock) && WfBundles(lib, b) && GenuineSources(lib, sources)
    requires forall s :: s in sources ==> Covered(clock(0)(0), s, b)
    requires forall c :: c in b.full || c in b.caOnly ==> !Expired(End(clock, sources), c.expire)
    ensures LoadOk(lib, true, Some(Write(b)))
    ensures var p := Fold(lib, clock, sources, Load(lib, clock, Some(Write(b))));
      p.ok && p.bundles.full == b.full && p.bundles.caOnly == b.caOnly
  {
    LoadOfUnexpired(lib, clock, LastText(sources), b);
    var start := Load(lib, clock, Some(Write(b)));
    forall s, k: nat | s in sources && k <= LastText(sources)
      ensures Settled(clock(k), s, start)
    {
      SettledLater(lib, clock, LastText(sources), k, s, b);
    }
    FoldOfSettledIsNoOp(lib, clock, sources, start);
  }

  /**
   The fixpoint: a pass that went through is followed by another one over the same inputs, no certificate it
   wrote expires in between, and the second pass writes the very same text, whatever order either pass ranges
   over the user's secret in and whatever secret the first one started from.
   */
  lemma {:induction false} SecondPassWritesTheSame(
    lib: Crypto, secret: Option<BundleSecret>, inp: Inputs, order: seq<string>, order': seq<string>,
    clock: Clock, clock': Clock)
    requires lib.Sound() && Monotone(clock) && Monotone(clock')
    requires ValidOrder(inp, order) && ValidOrder(inp, order')
    requires End(clock, Sources(lib, inp, order)) <= clock'(0)(0)
    requires Pass(lib, clock, secret, inp, order).ok
    requires var b := Pass(lib, clock, secret, inp, order).bundles;
      forall c :: c in b.full || c in b.caOnly ==> !Expired(End(clock', Sources(lib, inp, order')), c.expire)
    ensures var written := Write(Pass(lib, clock, secret, inp, order).bundles);
      var second := Pass(lib, clock', Some(written), inp, order');
      second.ok && Write(second.bundles) == written
  {
    var b := Pass(lib, clock, secret, inp, order).bundles;
    var sources := Sources(lib, inp, order');
    PassEffect(lib, clock, secret, inp, order, clock'(0)(0));
    SameSources(lib, inp, order, order');
    SourcesGenuine(lib, inp, order');
    FoldOfCovered(lib, clock', sources, b);
  }

  // ---------------------------------------------------------------- what a pass writes

  /** The certificates of a list of sources that have not expired when the pass looks at them. */
  ghost function Gathered(clock: Clock, sources: seq<Source>): set<Bytes> {
    if sources == [] then {}
    else
      var last := sources[|sources| - 1];
      Gathered(clock, sources[..|sources| - 1])
      + if last.Unavailable? then {} else ReadRaws(clock(3 * |sources|), last.read.certs)
  }

  lemma {:induction false} StepGathers(lib: Crypto, clock: Clock, k: nat, s: Source, b: Bundles)
    requires lib.Sound() && Monotone(clock) && WfBundles(lib, b) && GenuineSource(lib, s)
    requires Step(lib, clock, k, s, b).ok
    ensures var after := Step(lib, clock, k, s, b).bundles;
      && !s.Unavailable? && WfBundles(lib, after)
      && Raws(after.full) == Raws(b.full) + ReadRaws(clock(3 * k), s.read.certs)
  {
    StepEffect(lib, clock, k, s, b);
  }

  lemma {:induction false} FoldGathers(lib: Crypto, clock: Clock, sources: seq<Source>, b: Bundles)
    requires lib.Sound() && Monotone(clock) && WfBundles(lib, b) && GenuineSources(lib, sources)
    requires Fold(lib, clock, sources, b).ok
    ensures WfBundles(lib, Fold(lib, clock, sources, b).bundles)
    ensures Raws(Fold(lib, clock, sources, b).bundles.full) == Raws(b.full) + Gathered(clock, sources)
    decreases |sources|
  {
    if sources != [] {
      var init, last := sources[..|sources| - 1], sources[|sources| - 1];
      assert last in sources && forall s :: s in init ==> s in sources;
      var before := Fold(lib, clock, init, b);
      FoldGathers(lib, clock, init, b);
      StepGathers(lib, clock, |sources|, last, before.bundles);
    }
  }

  /** The certificates of the sources that have not expired at one time. */
  ghost function AliveIn(now: int, sources: seq<Source>): set<Bytes> {
    set s, x | s in sources && !s.Unavailable? && x in s.read.certs && !Expired(now, x.notAfter) :: x.raw
  }

  /** No certificate of the sources expires between the two times. */
  ghost predicate NoneExpires(sources: seq<Source>, from: int, to: int) {
    forall s, x :: s in sources && !s.Unavailable? && x in s.read.certs && Expired(to, x.notAfter) ==>
      Expired(from, x.notAfter)
  }

  lemma {:induction false} AliveInSplit(now: int, init: seq<Source>, last: Source)
    ensures AliveIn(now, init + [last])
      == AliveIn(now, init) + if last.Unavailable? then {} else AliveRaws(now, last.read.certs)
  {
    assert forall s :: s in init + [last] <==> s in init || s == last;
    if !last.Unavailable? {
      forall x | x in last.read.certs && !Expired(now, x.notAfter)
        ensures x.raw in AliveRaws(now, last.read.certs)
      {
        var i :| 0 <= i < |last.read.certs| && last.read.certs[i] == x;
        assert last.read.certs[i].raw in AliveRaws(now, last.read.certs);
      }
    }
  }

  /** A text looked at between two times between which none of it expires. */
  lemma {:induction false} ReadWhileNoneExpires(times: Times, xs: seq<X509>, from: int, to: int)
    requires forall i: nat :: from <= times(i) <= to
    requires forall x :: x in xs && Expired(to, x.notAfter) ==> Expired(from, x.notAfter)
    ensures ReadRaws(times, xs) == AliveRaws(from, xs)
  {
    ReadShrinks(i => from, times, xs);
    forall i | 0 <= i < |xs| && !Expired(from, xs[i].notAfter)
      ensures !Expired(times(i), xs[i].notAfter)
    {
      assert xs[i] in xs;
      if Expired(times(i), xs[i].notAfter) {
        ExpiredForever(times(i), to, xs[i].notAfter);
      }
    }
    ReadShrinksOnly(times, xs, from);
  }

  lemma {:induction false} ReadShrinksOnly(times: Times, xs: seq<X509>, from: int)
    requires forall i :: 0 <= i < |xs| && !Expired(from, xs[i].notAfter) ==> !Expired(times(i), xs[i].notAfter)
    ensures AliveRaws(from, xs) <= ReadRaws(times, xs)
  {
    forall raw | raw in AliveRaws(from, xs)
      ensures raw in ReadRaws(times, xs)
    {
      var i :| 0 <= i < |xs| && !Expired(from, xs[i].notAfter) && xs[i].raw == raw;
      assert xs[i].raw in ReadRaws(times, xs);
    }
  }

  lemma {:induction false} GatheredIsAlive(clock: Clock, sources: seq<Source>, to: int)
    requires Monotone(clock) && End(clock, sources) <= to && NoneExpires(sources, clock(0)(0), to)
    ensures Gathered(clock, sources) == AliveIn(clock(0)(0), sources)
    decreases |sources|
  {
    if sources != [] {
      var init, last, n := sources[..|sources| - 1], sources[|sources| - 1], |sources|;
      assert sources == init + [last] && last in sources;
      InOrder(clock, 3 * |init| + 3, 0, 3 * n + 3, 0);
      GatheredIsAlive(clock, init, to);
      AliveInSplit(clock(0)(0), init, last);
      if !last.Unavailable? {
        forall i: nat
          ensures clock(0)(0) <= clock(3 * n)(i) <= to
        {
          InOrder(clock, 0, 0, 3 * n, i);
          InOrder(clock, 3 * n, i, 3 * n + 3, 0);
        }
        ReadWhileNoneExpires(clock(3 * n), last.read.certs, clock(0)(0), to);
      }
    }
  }

  /** A pass writes exactly what was read of the old secret and the certificates of the sources that have not expired
      when it looks at them. */
  lemma {:induction false} PassWritesTheUnexpired(lib: Crypto, clock: Clock, secret: Option<BundleSecret>, inp: Inputs,
      order: seq<string>)
    requires lib.Sound() && Monotone(clock) && ValidOrder(inp, order) && Pass(lib, clock, secret, inp, order).ok
    ensures Raws(Pass(lib, clock, secret, inp, order).bundles.full)
      == Raws(Load(lib, clock, secret).full) + Gathered(clock, Sources(lib, inp, order))
  {
    LoadWf(lib, clock, secret);
    SourcesGenuine(lib, inp, order);
    FoldGathers(lib, clock, Sources(lib, inp, order), Load(lib, clock, secret));
  }

  /** So the set does not depend on the order in which the user's secret is ranged over, unless a certificate expires
      in the middle of the pass. */
  lemma {:induction false} OrderShowsOnlyAtExpiry(lib: Crypto, clock: Clock, secret: Option<BundleSecret>, inp: Inputs,
      order: seq<string>, order': seq<string>)
    requires lib.Sound() && Monotone(clock) && ValidOrder(inp, order) && ValidOrder(inp, order')
    requires Pass(lib, clock, secret, inp, order).ok && Pass(lib, clock, secret, inp, order').ok
    requires NoneExpires(Sources(lib, inp, order), clock(0)(0), End(clock, Sources(lib, inp, order)))
    requires NoneExpires(Sources(lib, inp, order'), clock(0)(0), End(clock, Sources(lib, inp, order')))
    ensures Raws(Pass(lib, clock, secret, inp, order).bundles.full)
      == Raws(Pass(lib, clock, secret, inp, order').bundles.full)
  {
    var now, mine, theirs := clock(0)(0), Sources(lib, inp, order), Sources(lib, inp, order');
    PassWritesTheUnexpired(lib, clock, secret, inp, order);
    PassWritesTheUnexpired(lib, clock, secret, inp, order');
    GatheredIsAlive(clock, mine, End(clock, mine));
    GatheredIsAlive(clock, theirs, End(clock, theirs));
    SameSources(lib, inp, order, order');
    SameSources(lib, inp, order', order);
    assert AliveIn(now, mine) == AliveIn(now, theirs);
  }

  // ---------------------------------------------------------------- whole runs

  datatype PassRecord = PassRecord(clock: Clock, inp: Inputs, order: seq<string>, stored: bool)

  ghost function After(lib: Crypto, secret: Option<BundleSecret>, r: PassRecord): Option<BundleSecret>
    requires ValidOrder(r.inp, r.order)
  {
    SecretAfter(lib, r.clock, secret, r.inp, r.order, r.stored)
  }

  /** secrets[i] is the bundle secret before the i-th pass; passes may stop early or fail to store their result. */
  ghost predicate IsRun(lib: Crypto, secrets: seq<Option<BundleSecret>>, passes: seq<PassRecord>) {
    && |secrets| == |passes| + 1
    && secrets[0] == None
    && (forall i :: 0 <= i < |passes| ==> Monotone(passes[i].clock))
    && (forall i :: 0 <= i < |passes| ==> ValidOrder(passes[i].inp, passes[i].order))
    && (forall i :: 0 <= i < |passes| ==> secrets[i + 1] == After(lib, secrets[i], passes[i]))
  }

  function FullCerts(lib: Crypto, secret: Option<BundleSecret>): seq<X509> {
    if secret.Some? && secret.value.full.Some? then Scan(lib, secret.value.full.value).certs else []
  }

  function CaOnlyCerts(lib: Crypto, secret: Option<BundleSecret>): seq<X509> {
    if secret.Some? && secret.value.caOnly.Some? then Scan(lib, secret.value.caOnly.value).certs else []
  }

  /** The secret is one that a pass wrote. */
  ghost predicate Written(lib: Crypto, secret: Option<BundleSecret>) {
    secret.Some? ==> exists b :: WfBundles(lib, b) && Subset(b) && secret.value == Write(b)
  }

  lemma {:induction false} WrittenCerts(lib: Crypto, b: Bundles)
    requires lib.Sound() && WfBundles(lib, b)
    ensures FullCerts(lib, Some(Write(b))) == Certificates(b.full)
    ensures CaOnlyCerts(lib, Some(Write(b))) == Certificates(b.caOnly)
  {
    ScanPrint(lib, b.full);
    ScanPrint(lib, b.caOnly);
  }

  lemma {:induction false} CertInBundle(lib: Crypto, certs: seq<CaCert>, x: X509)
    requires Wf(lib, certs) && lib.parse(x.raw) == Some(x)
    ensures x in Certificates(certs) <==> x.raw in Raws(certs)
  {
    if x.raw in Raws(certs) {
      var c :| c in certs && c.cert.raw == x.raw;
      var i :| 0 <= i < |certs| && certs[i] == c;
      assert Entry(lib, certs[i]) && Certificates(certs)[i] == x;
    }
    if x in Certificates(certs) {
      var i :| 0 <= i < |certs| && Certificates(certs)[i] == x;
      assert certs[i] in certs;
    }
  }

  /**
   One pass over a secret that a pass wrote: what it holds afterwards, and what it may have lost. A certificate of
   the full bundle is lost only if it has expired when the CA-only bundle is loaded, one of the CA-only bundle only
   if it has expired at the end of that.
   */
  lemma {:induction false} PassKeepsTheUnexpired(lib: Crypto, secret: Option<BundleSecret>, r: PassRecord)
    requires lib.Sound() && Written(lib, secret)
    requires Monotone(r.clock) && ValidOrder(r.inp, r.order)
    ensures var after := After(lib, secret, r);
      && Written(lib, after)
      && (forall x :: x in FullCerts(lib, secret) ==> x in FullCerts(lib, after) || Expired(r.clock(1)(0), x.notAfter))
      && (forall x :: x in CaOnlyCerts(lib, secret) ==>
          x in CaOnlyCerts(lib, after) || Expired(r.clock(2)(0), x.notAfter))
  {
    var after := After(lib, secret, r);
    var p := Pass(lib, r.clock, secret, r.inp, r.order);
    if p.ok && r.stored {
      PassEffect(lib, r.clock, secret, r.inp, r.order, End(r.clock, Sources(lib, r.inp, r.order)));
      var start := Load(lib, r.clock, secret);
      if secret.Some? {
        var b :| WfBundles(lib, b) && Subset(b) && secret.value == Write(b);
        StartOfWritten(lib, r.clock, b);
        WrittenCerts(lib, b);
        WrittenCerts(lib, p.bundles);
        KeptByBundle(lib, r.clock, 0, b.full, p.bundles.full);
        KeptByBundle(lib, r.clock, 1, b.caOnly, p.bundles.caOnly);
      }
      assert Subset(start);
      assert after.value == Write(p.bundles);
    }
  }

  /** What loading a written secret starts from: what was read of each bundle, the CA-only one inside the full one. */
  lemma {:induction false} StartOfWritten(lib: Crypto, clock: Clock, b: Bundles)
    requires lib.Sound() && Monotone(clock) && WfBundles(lib, b) && Subset(b)
    ensures var start := Load(lib, clock, Some(Write(b)));
      && Subset(start)
      && Raws(start.full) == ReadRaws(clock(0), Certificates(b.full))
      && Raws(start.caOnly) == ReadRaws(clock(1), Certificates(b.caOnly))
  {
    ScanPrint(lib, b.full);
    ScanPrint(lib, b.caOnly);
    CertificatesGenuine(lib, b.full);
    CertificatesGenuine(lib, b.caOnly);
    AbsorbAddsTheUnexpired(lib, clock(0), [], Certificates(b.full));
    AbsorbAddsTheUnexpired(lib, clock(1), [], Certificates(b.caOnly));
    assert Raws([]) == {};
    EarlierBundleReadsMore(lib, clock, b);
  }

  lemma {:induction false} CertificatesGenuine(lib: Crypto, certs: seq<CaCert>)
    requires Wf(lib, certs)
    ensures Genuine(lib, Certificates(certs))
  {
    forall i | 0 <= i < |certs|
      ensures lib.parse(Certificates(certs)[i].raw) == Some(Certificates(certs)[i])
    {
      assert Entry(lib, certs[i]);
    }
  }

  lemma {:induction false} EarlierBundleReadsMore(lib: Crypto, clock: Clock, b: Bundles)
    requires Monotone(clock) && WfBundles(lib, b) && Subset(b)
    ensures ReadRaws(clock(1), Certificates(b.caOnly)) <= ReadRaws(clock(0), Certificates(b.full))
  {
    var xs, ys := Certificates(b.caOnly), Certificates(b.full);
    forall i | 0 <= i < |xs| && !Expired(clock(1)(i), xs[i].notAfter)
      ensures xs[i].raw in ReadRaws(clock(0), ys)
    {
      assert Entry(lib, b.caOnly[i]) && b.caOnly[i] in b.caOnly;
      assert xs[i].raw in Raws(b.full);
      CertInBundle(lib, b.full, xs[i]);
      var j :| 0 <= j < |ys| && ys[j] == xs[i];
      InOrder(clock, 0, j, 1, i);
      if Expired(clock(0)(j), ys[j].notAfter) {
        ExpiredForever(clock(0)(j), clock(1)(i), ys[j].notAfter);
      }
      assert ys[j].raw in ReadRaws(clock(0), ys);
    }
  }

  lemma {:induction false} KeptByBundle(lib: Crypto, clock: Clock, k: nat, before: seq<CaCert>, after: seq<CaCert>)
    requires Monotone(clock) && Wf(lib, before) && Wf(lib, after)
    requires ReadRaws(clock(k), Certificates(before)) <= Raws(after)
    ensures forall x :: x in Certificates(before) ==> x in Certificates(after) || Expired(clock(k + 1)(0), x.notAfter)
  {
    var xs := Certificates(before);
    forall x | x in xs && !Expired(clock(k + 1)(0), x.notAfter)
      ensures x in Certificates(after)
    {
      var i :| 0 <= i < |before| && xs[i] == x;
      assert Entry(lib, before[i]);
      InOrder(clock, k, i, k + 1, 0);
      if Expired(clock(k)(i), x.notAfter) {
        ExpiredForever(clock(k)(i), clock(k + 1)(0), x.notAfter);
      }
      assert xs[i].raw in ReadRaws(clock(k), xs);
      CertInBundle(lib, after, x);
    }
  }

  lemma {:induction false} RunIsWritten(lib: Crypto, secrets: seq<Option<BundleSecret>>, passes: seq<PassRecord>,
      i: nat)
    requires lib.Sound() && IsRun(lib, secrets, passes) && i <= |passes|
    ensures Written(lib, secrets[i])
  {
    if i > 0 {
      RunIsWritten(lib, secrets, passes, i - 1);
      PassKeepsTheUnexpired(lib, secrets[i - 1], passes[i - 1]);
    }
  }

  /** Safety over every run: a certificate that is ever in the bundle secret stays there until it has expired. */
  lemma {:induction false} NoCertificateIsLostEarly(
    lib: Crypto, secrets: seq<Option<BundleSecret>>, passes: seq<PassRecord>, i: nat, j: nat, x: X509)
    requires lib.Sound() && IsRun(lib, secrets, passes)
    requires i <= j <= |passes| && x in FullCerts(lib, secrets[i])
    ensures x in FullCerts(lib, secrets[j]) || exists k :: i <= k < j && Expired(passes[k].clock(1)(0), x.notAfter)
    decreases j - i
  {
    if i < j {
      RunIsWritten(lib, secrets, passes, i);
      PassKeepsTheUnexpired(lib, secrets[i], passes[i]);
      if !Expired(passes[i].clock(1)(0), x.notAfter) {
        NoCertificateIsLostEarly(lib, secrets, passes, i + 1, j, x);
      }
    }
  }

  /** The same for the CA-only bundle. */
  lemma {:induction false} NoIssuerIsLostEarly(
    lib: Crypto, secrets: seq<Option<BundleSecret>>, passes: seq<PassRecord>, i: nat, j: nat, x: X509)
    requires lib.Sound() && IsRun(lib, secrets, passes)
    requires i <= j <= |passes| && x in CaOnlyCerts(lib, secrets[i])
    ensures x in CaOnlyCerts(lib, secrets[j]) || exists k :: i <= k < j && Expired(passes[k].clock(2)(0), x.notAfter)
    decreases j - i
  {
    if i < j {
      RunIsWritten(lib, secrets, passes, i);
      PassKeepsTheUnexpired(lib, secrets[i], passes[i]);
      if !Expired(passes[i].clock(2)(0), x.notAfter) {
        NoIssuerIsLostEarly(lib, secrets, passes, i + 1, j, x);
      }
    }
  }

  /** In every run the CA-only bundle lies inside the full bundle, although the two are read at different times. */
  lemma {:induction false} CaOnlyWithinFull(lib: Crypto, secrets: seq<Option<BundleSecret>>, passes: seq<PassRecord>,
      i: nat)
    requires lib.Sound() && IsRun(lib, secrets, passes) && i <= |passes|
    ensures forall x :: x in CaOnlyCerts(lib, secrets[i]) ==> x in FullCerts(lib, secrets[i])
  {
    RunIsWritten(lib, secrets, passes, i);
    if secrets[i].Some? {
      var b :| WfBundles(lib, b) && Subset(b) && secrets[i].value == Write(b);
      WrittenCerts(lib, b);
      forall x | x in Certificates(b.caOnly) ensures x in Certificates(b.full) {
        var k :| 0 <= k < |b.caOnly| && Certificates(b.caOnly)[k] == x;
        assert Entry(lib, b.caOnly[k]);
        CertInBundle(lib, b.caOnly, x);
        CertInBundle(lib, b.full, x);
      }
    }
  }
}
