/**
 The CA bundle engine: the expiry test, the deduplicating parser and the printer.
 x509 parsing and hashing are functions the engine is given.
 */
module CaBundle {
  import opened Wrappers
  import opened PemText

  datatype X509 = X509(issuerName: string, notAfter: int, raw: Bytes)

  /** The x509 parser and the object hash. Times are nanoseconds. */
  datatype Crypto = Crypto(parse: Bytes -> Option<X509>, hash: Bytes -> string) {
    /** A parsed certificate keeps the bytes it came from, and no two byte strings share a hash. */
    ghost predicate Sound() {
      && (forall b :: parse(b).Some? ==> parse(b).value.raw == b)
      && (forall a, b :: hash(a) == hash(b) ==> a == b)
    }
  }

  datatype CaCert = CaCert(hash: string, cert: X509, expire: int)

  // ---------------------------------------------------------------- expiry

  const MINUTE: int := 60_000_000_000
  const MAX_DURATION: int := 0x7fff_ffff_ffff_ffff

  /** time.Since saturates at the range of a 64-bit duration. */
  function Since(now: int, t: int): int {
    var d := now - t;
    if d > MAX_DURATION then MAX_DURATION else if d < -MAX_DURATION - 1 then -MAX_DURATION - 1 else d
  }

  /** math.Round of a duration in minutes: to the nearest, halves away from zero. */
  function RoundToMinutes(d: int): int {
    if d >= 0 then (d + MINUTE / 2) / MINUTE else -((-d + MINUTE / 2) / MINUTE)
  }

  function Minutes(now: int, t: int): int {
    RoundToMinutes(Since(now, t))
  }

  predicate Expired(now: int, notAfter: int) {
    -Minutes(now, notAfter) <= 0
  }

  /** The rounded test keeps a certificate exactly while thirty seconds of its life remain. */
  lemma {:induction false} ExpiredIffUnderThirtySeconds(now: int, notAfter: int)
    ensures Expired(now, notAfter) <==> notAfter - now < 30_000_000_000
  {
    var d := Since(now, notAfter);
    if d < 0 {
      var m := (-d + MINUTE / 2) / MINUTE;
      assert m > 0 <==> -d + MINUTE / 2 >= MINUTE;
    }
  }

  lemma {:induction false} ExpiredForever(now: int, later: int, notAfter: int)
    requires Expired(now, notAfter) && now <= later
    ensures Expired(later, notAfter)
  {
    ExpiredIffUnderThirtySeconds(now, notAfter);
    ExpiredIffUnderThirtySeconds(later, notAfter);
  }

  // ---------------------------------------------------------------- parsing

  /** What the parsing loop meets: the certificates up to the first offending block, and whether there was none. */
  datatype Scanned = Scanned(certs: seq<X509>, ok: bool)

  /** A bundle may hold only CERTIFICATE blocks without headers whose bytes parse. */
  predicate Acceptable(lib: Crypto, block: Decoded)
    requires block.Block?
  {
    block.kind == "CERTIFICATE" && block.headers == 0 && lib.parse(block.bytes).Some?
  }

  function Scan(lib: Crypto, text: Pem): Scanned
    decreases |text|
  {
    match Decode(text)
    case NoBlock => Scanned([], true)
    case Block(kind, headers, bytes, rest) =>
      if !Acceptable(lib, Decode(text)) then Scanned([], false)
      else
        var tail := Scan(lib, rest);
        Scanned([lib.parse(bytes).value] + tail.certs, tail.ok)
  }

  lemma {:induction false} ScanStep(lib: Crypto, text: Pem, total: Scanned, done: seq<X509>)
    requires total.certs == done + Scan(lib, text).certs && total.ok == Scan(lib, text).ok
    ensures var d := Decode(text);
      if d.Block? && Acceptable(lib, d) then
        var next := Scan(lib, d.rest);
        total.certs == done + [lib.parse(d.bytes).value] + next.certs && total.ok == next.ok
      else
        total.certs == done && total.ok == d.NoBlock?
  {
    var d := Decode(text);
    if d.Block? && Acceptable(lib, d) {
      assert done + Scan(lib, text).certs == done + [lib.parse(d.bytes).value] + Scan(lib, d.rest).certs;
    } else {
      assert done + [] == done;
    }
  }

  predicate HasHash(certs: seq<CaCert>, hash: string) {
    exists c :: c in certs && c.hash == hash
  }

  function Insert(lib: Crypto, now: int, certs: seq<CaCert>, x: X509): seq<CaCert> {
    if Expired(now, x.notAfter) || HasHash(certs, lib.hash(x.raw)) then certs
    else certs + [CaCert(lib.hash(x.raw), x, x.notAfter)]
  }

  /** The time at which the i-th certificate of a text is looked at. */
  type Times = nat -> int

  ghost predicate Forward(times: Times) {
    forall i: nat, j: nat :: i <= j ==> times(i) <= times(j)
  }

  /** The bundle after reading the certificates of xs, in order, each at its time. */
  function Absorb(lib: Crypto, times: Times, certs: seq<CaCert>, xs: seq<X509>): seq<CaCert>
    decreases |xs|
  {
    if xs == [] then certs
    else Insert(lib, times(|xs| - 1), Absorb(lib, times, certs, xs[..|xs| - 1]), xs[|xs| - 1])
  }

  lemma {:induction false} AbsorbStep(lib: Crypto, times: Times, certs: seq<CaCert>, xs: seq<X509>, x: X509)
    ensures Absorb(lib, times, certs, xs + [x]) == Insert(lib, times(|xs|), Absorb(lib, times, certs, xs), x)
  {
    assert (xs + [x])[..|xs|] == xs;
  }

  /** Every entry is what the parser makes of its bytes, and no two share a hash. */
  ghost predicate Wf(lib: Crypto, certs: seq<CaCert>) {
    && (forall i :: 0 <= i < |certs| ==> Entry(lib, certs[i]))
    && (forall i, j :: 0 <= i < j < |certs| ==> certs[i].hash != certs[j].hash)
  }

  ghost predicate Entry(lib: Crypto, c: CaCert) {
    && lib.parse(c.cert.raw) == Some(c.cert)
    && c.hash == lib.hash(c.cert.raw)
    && c.expire == c.cert.notAfter
  }

  /** Every certificate the scanner returns is the parse of its own bytes. */
  ghost predicate Genuine(lib: Crypto, xs: seq<X509>) {
    forall i :: 0 <= i < |xs| ==> lib.parse(xs[i].raw) == Some(xs[i])
  }

  ghost function Raws(certs: seq<CaCert>): set<Bytes> {
    set c | c in certs :: c.cert.raw
  }

  /** The certificates of xs that have not expired when they are looked at. */
  ghost function ReadRaws(times: Times, xs: seq<X509>): set<Bytes> {
    set i | 0 <= i < |xs| && !Expired(times(i), xs[i].notAfter) :: xs[i].raw
  }

  lemma {:induction false} ScanGenuine(lib: Crypto, text: Pem)
    requires lib.Sound()
    ensures Genuine(lib, Scan(lib, text).certs)
    decreases |text|
  {
    var d := Decode(text);
    if d.Block? && Acceptable(lib, d) {
      ScanGenuine(lib, d.rest);
    }
  }

  ghost function IfUnexpired(now: int, x: X509): set<Bytes> {
    if Expired(now, x.notAfter) then {} else {x.raw}
  }

  lemma {:induction false} InsertAddsIfUnexpired(lib: Crypto, now: int, certs: seq<CaCert>, x: X509)
    requires lib.Sound() && Wf(lib, certs) && lib.parse(x.raw) == Some(x)
    ensures Wf(lib, Insert(lib, now, certs, x))
    ensures Raws(Insert(lib, now, certs, x)) == Raws(certs) + IfUnexpired(now, x)
    ensures Insert(lib, now, certs, x) == certs <==> Expired(now, x.notAfter) || x.raw in Raws(certs)
  {
    var r := Insert(lib, now, certs, x);
    if !Expired(now, x.notAfter) {
      if HasHash(certs, lib.hash(x.raw)) {
        var c :| c in certs && c.hash == lib.hash(x.raw);
        assert c.cert.raw == x.raw;
      } else {
        var e := CaCert(lib.hash(x.raw), x, x.notAfter);
        assert forall c :: c in r <==> c in certs || c == e;
        assert Raws(r) == Raws(certs) + {x.raw};
      }
    }
  }

  /**
   Reading adds exactly the unexpired certificates: the old entries keep their places in front, nothing else
   gets in, and no certificate gets in twice.
   */
  lemma {:induction false} AbsorbAddsTheUnexpired(lib: Crypto, times: Times, certs: seq<CaCert>, xs: seq<X509>)
    requires lib.Sound() && Wf(lib, certs) && Genuine(lib, xs)
    ensures var r := Absorb(lib, times, certs, xs);
      Wf(lib, r) && certs <= r && Raws(r) == Raws(certs) + ReadRaws(times, xs)
    decreases |xs|
  {
    if xs == [] {
      assert ReadRaws(times, xs) == {};
    } else {
      var init, last := xs[..|xs| - 1], xs[|xs| - 1];
      AbsorbAddsTheUnexpired(lib, times, certs, init);
      InsertAddsIfUnexpired(lib, times(|init|), Absorb(lib, times, certs, init), last);
      ReadRawsSplit(times, init, last);
      assert xs == init + [last];
    }
  }

  lemma {:induction false} ReadRawsSplit(times: Times, init: seq<X509>, last: X509)
    ensures ReadRaws(times, init + [last]) == ReadRaws(times, init) + IfUnexpired(times(|init|), last)
  {
    var xs := init + [last];
    assert forall i :: 0 <= i < |init| ==> xs[i] == init[i];
    assert xs[|init|] == last;
    forall raw
      ensures raw in ReadRaws(times, xs) <==> raw in ReadRaws(times, init) + IfUnexpired(times(|init|), last)
    {
      if raw in ReadRaws(times, init) {
        var i :| 0 <= i < |init| && !Expired(times(i), init[i].notAfter) && init[i].raw == raw;
        assert xs[i].raw == raw;
      }
      if raw in IfUnexpired(times(|init|), last) {
        assert xs[|init|].raw == raw;
      }
    }
  }

  /** Where a certificate first occurs. */
  function FirstIndex(xs: seq<X509>, raw: Bytes): (i: nat)
    ensures i <= |xs|
    ensures i < |xs| ==> xs[i].raw == raw
    ensures forall k :: 0 <= k < i ==> xs[k].raw != raw
  {
    if xs == [] || xs[0].raw == raw then 0 else 1 + FirstIndex(xs[1..], raw)
  }

  lemma {:induction false} FirstIndexAppend(init: seq<X509>, last: X509, raw: Bytes)
    ensures FirstIndex(init, raw) < |init| ==> FirstIndex(init + [last], raw) == FirstIndex(init, raw)
    ensures FirstIndex(init, raw) == |init| && last.raw == raw ==> FirstIndex(init + [last], raw) == |init|
  {
    var xs := init + [last];
    assert forall k :: 0 <= k < |init| ==> xs[k] == init[k];
    assert xs[|init|] == last;
  }

  lemma {:induction false} NotReadBefore(lib: Crypto, times: Times, init: seq<X509>, last: X509)
    requires Genuine(lib, init) && lib.parse(last.raw) == Some(last) && Forward(times)
    requires !Expired(times(|init|), last.notAfter) && last.raw !in ReadRaws(times, init)
    ensures FirstIndex(init, last.raw) == |init|
  {
    forall k | 0 <= k < |init|
      ensures init[k].raw != last.raw
    {
      if init[k].raw == last.raw {
        assert init[k] == last;
        if Expired(times(k), last.notAfter) {
          ExpiredForever(times(k), times(|init|), last.notAfter);
        }
      }
    }
  }

  /** From position from on, the entries of r stand in the order in which their certificates first occur in xs. */
  ghost predicate InTextOrder(from: nat, r: seq<CaCert>, xs: seq<X509>) {
    && (forall i :: from <= i < |r| ==> FirstIndex(xs, r[i].cert.raw) < |xs|)
    && (forall i, j :: from <= i < j < |r| ==> FirstIndex(xs, r[i].cert.raw) < FirstIndex(xs, r[j].cert.raw))
  }

  lemma {:induction false} LongerTextKeepsOrder(from: nat, r: seq<CaCert>, init: seq<X509>, last: X509)
    requires InTextOrder(from, r, init)
    ensures InTextOrder(from, r, init + [last])
    ensures forall i :: from <= i < |r| ==> FirstIndex(init + [last], r[i].cert.raw) < |init|
  {
    forall i | from <= i < |r|
      ensures FirstIndex(init + [last], r[i].cert.raw) == FirstIndex(init, r[i].cert.raw)
    {
      FirstIndexAppend(init, last, r[i].cert.raw);
    }
  }

  /** The new entries stand in the order in which their certificates first occur in the text. */
  lemma {:induction false} AbsorbKeepsTextOrder(lib: Crypto, times: Times, certs: seq<CaCert>, xs: seq<X509>)
    requires lib.Sound() && Wf(lib, certs) && Genuine(lib, xs) && Forward(times)
    ensures InTextOrder(|certs|, Absorb(lib, times, certs, xs), xs)
    decreases |xs|
  {
    if xs == [] {
      assert Absorb(lib, times, certs, xs) == certs;
    } else {
      var init, last := xs[..|xs| - 1], xs[|xs| - 1];
      var before := Absorb(lib, times, certs, init);
      AbsorbKeepsTextOrder(lib, times, certs, init);
      AbsorbAddsTheUnexpired(lib, times, certs, init);
      LongerTextKeepsOrder(|certs|, before, init, last);
      assert xs == init + [last];
      InsertAddsIfUnexpired(lib, times(|init|), before, last);
      if Insert(lib, times(|init|), before, last) != before {
        NotReadBefore(lib, times, init, last);
        FirstIndexAppend(init, last, last.raw);
        NewestComesLast(|certs|, before, CaCert(lib.hash(last.raw), last, last.notAfter), xs);
      }
    }
  }

  lemma {:induction false} NewestComesLast(from: nat, r: seq<CaCert>, c: CaCert, xs: seq<X509>)
    requires InTextOrder(from, r, xs) && FirstIndex(xs, c.cert.raw) < |xs|
    requires forall i :: from <= i < |r| ==> FirstIndex(xs, r[i].cert.raw) < FirstIndex(xs, c.cert.raw)
    ensures InTextOrder(from, r + [c], xs)
  {
    var longer := r + [c];
    assert forall i :: 0 <= i < |r| ==> longer[i] == r[i];
    assert longer[|r|] == c;
  }

  /** Reading certificates that are expired or already there changes nothing. */
  lemma {:induction false} AbsorbOfKnownIsNoOp(lib: Crypto, times: Times, certs: seq<CaCert>, xs: seq<X509>)
    requires lib.Sound() && Wf(lib, certs) && Genuine(lib, xs)
    requires ReadRaws(times, xs) <= Raws(certs)
    ensures Absorb(lib, times, certs, xs) == certs
    decreases |xs|
  {
    if xs != [] {
      var init, last := xs[..|xs| - 1], xs[|xs| - 1];
      ReadRawsSplit(times, init, last);
      assert xs == init + [last];
      AbsorbOfKnownIsNoOp(lib, times, certs, init);
      InsertAddsIfUnexpired(lib, times(|init|), certs, last);
    }
  }

  // ---------------------------------------------------------------- printing

  function PrintEntry(c: CaCert): Pem {
    [Text("# " + c.cert.issuerName)] + Encode("CERTIFICATE", c.cert.raw)
  }

  function Print(certs: seq<CaCert>): Pem {
    if certs == [] then [] else PrintEntry(certs[0]) + Print(certs[1..])
  }

  /** Every certificate is printed as a block behind a comment line with the name of its issuer. */
  lemma {:induction false} EveryEntryIsPrinted(certs: seq<CaCert>, i: nat) returns (before: Pem, after: Pem)
    requires i < |certs|
    ensures var cert := certs[i].cert;
      Print(certs) == before + [Text("# " + cert.issuerName)] + Encode("CERTIFICATE", cert.raw) + after
  {
    if i == 0 {
      before, after := [], Print(certs[1..]);
    } else {
      var ahead;
      ahead, after := EveryEntryIsPrinted(certs[1..], i - 1);
      before := PrintEntry(certs[0]) + ahead;
    }
  }

  lemma {:induction false} PrintUnfold(certs: seq<CaCert>, i: nat, before: Pem, after: Pem)
    requires i < |certs|
    requires after == before + [Text("# " + certs[i].cert.issuerName)] + Encode("CERTIFICATE", certs[i].cert.raw)
    ensures after + Print(certs[i + 1..]) == before + Print(certs[i..])
  {
    assert certs[i..][1..] == certs[i + 1..];
    assert after == before + PrintEntry(certs[i]);
  }

  function Certificates(certs: seq<CaCert>): (xs: seq<X509>)
    ensures |xs| == |certs|
    ensures forall i :: 0 <= i < |xs| ==> xs[i] == certs[i].cert
  {
    seq(|certs|, i requires 0 <= i < |certs| => certs[i].cert)
  }

  /** Scanning a printed bundle gives back its certificates, in order, and no error. */
  lemma {:induction false} ScanPrint(lib: Crypto, certs: seq<CaCert>)
    requires lib.Sound() && Wf(lib, certs)
    ensures Scan(lib, Print(certs)) == Scanned(Certificates(certs), true)
    decreases |certs|
  {
    if certs == [] {
      assert Certificates(certs) == [];
    } else {
      var first, rest := certs[0], certs[1..];
      ScanPrint(lib, rest);
      assert Entry(lib, first);
      ScanPrintedEntry(lib, first, Print(rest));
      assert Certificates(certs) == [first.cert] + Certificates(rest);
    }
  }

  lemma {:induction false} ScanPrintedEntry(lib: Crypto, c: CaCert, rest: Pem)
    requires Entry(lib, c)
    ensures Scan(lib, PrintEntry(c) + rest) == Scanned([c.cert] + Scan(lib, rest).certs, Scan(lib, rest).ok)
  {
    DecodeEncode("# " + c.cert.issuerName, "CERTIFICATE", c.cert.raw, rest);
  }

  /** The entries of a bundle that have not expired when they are looked at. */
  function Alive(times: Times, certs: seq<CaCert>): seq<CaCert> {
    if certs == [] then []
    else
      var init, last := Alive(times, certs[..|certs| - 1]), certs[|certs| - 1];
      if Expired(times(|certs| - 1), last.expire) then init else init + [last]
  }

  /** Loading a printed bundle into an empty one gives back its unexpired entries, in order. */
  lemma {:induction false} ReloadKeepsTheUnexpired(lib: Crypto, times: Times, certs: seq<CaCert>)
    requires lib.Sound() && Wf(lib, certs)
    ensures Absorb(lib, times, [], Certificates(certs)) == Alive(times, certs)
    decreases |certs|
  {
    if certs != [] {
      var init, last := certs[..|certs| - 1], certs[|certs| - 1];
      assert Certificates(certs)[..|certs| - 1] == Certificates(init);
      ReloadKeepsTheUnexpired(lib, times, init);
      AliveIsPart(times, init);
      assert !HasHash(init, last.hash);
      assert !HasHash(Alive(times, init), last.hash);
      assert Entry(lib, last);
    }
  }

  lemma {:induction false} AliveIsPart(times: Times, certs: seq<CaCert>)
    ensures forall c :: c in Alive(times, certs) ==> c in certs
    ensures (forall i :: 0 <= i < |certs| ==> !Expired(times(i), certs[i].expire)) ==> Alive(times, certs) == certs
    decreases |certs|
  {
    if certs != [] {
      var init, last := certs[..|certs| - 1], certs[|certs| - 1];
      AliveIsPart(times, init);
      assert certs == init + [last];
    }
  }

  // ---------------------------------------------------------------- the bundle object

  class Bundle {
    var certs: seq<CaCert>

    constructor ()
      ensures certs == []
    {
      certs := [];
    }

    /** Reads every block of the text; an offending block stops the reading but not what was read before it. */
    method GetCertsFromPEM(lib: Crypto, times: Times, pemData: Option<Pem>) returns (ok: bool)
      requires lib.Sound()
      modifies this
      ensures pemData.None? ==> !ok && certs == old(certs)
      ensures pemData.Some? ==>
        ok == Scan(lib, pemData.value).ok && certs == Absorb(lib, times, old(certs), Scan(lib, pemData.value).certs)
    {
      if pemData.None? {
        return false;
      }
      var text, n := pemData.value, 0;
      ghost var total := Scan(lib, text);
      ghost var done: seq<X509> := [];
      while true
        invariant total.certs == done + Scan(lib, text).certs
        invariant total.ok == Scan(lib, text).ok
        invariant certs == Absorb(lib, times, old(certs), done) && n == |done|
        decreases |text|
      {
        var block := Decode(text);
        ScanStep(lib, text, total, done);
        if block.NoBlock? {
          break;
        }
        if block.kind != "CERTIFICATE" || block.headers != 0 {
          return false;
        }
        var certificate := lib.parse(block.bytes);
        if certificate.None? {
          return false;
        }
        text := block.rest;
        AbsorbStep(lib, times, old(certs), done, certificate.value);
        done := done + [certificate.value];
        var now := times(n);
        n := n + 1;
        if Expired(now, certificate.value.notAfter) {
          continue;
        }
        var blockHash := lib.hash(block.bytes);
        if !HasHash(certs, blockHash) {
          certs := certs + [CaCert(blockHash, certificate.value, certificate.value.notAfter)];
        }
      }
      return true;
    }

    method GetBundlePEM() returns (text: Pem)
      ensures text == Print(certs)
    {
      text := [];
      for i := 0 to |certs|
        invariant text + Print(certs[i..]) == Print(certs)
      {
        ghost var before := text;
        text := text + [Text("# " + certs[i].cert.issuerName)];
        text := text + Encode("CERTIFICATE", certs[i].cert.raw);
        PrintUnfold(certs, i, before, text);
      }
    }
  }
}
