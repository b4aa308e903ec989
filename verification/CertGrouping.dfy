/**
 Going through the sorted keys three at a time keeps the three entries of a node together exactly when no node's
 base name is followed, in another base name, by a suffix that sorts in between.
 */
module CertGrouping {
  import opened StringOrder
  import opened CertPacking

  const CA_SUFFIX := "-ca.crt"
  const CRT_SUFFIX := "-tls.crt"
  const KEY_SUFFIX := "-tls.key"

  /** The entries of one node. */
  function Block(b: string): Triple {
    Triple(b + CA_SUFFIX, b + CRT_SUFFIX, b + KEY_SUFFIX)
  }

  function BlockKeys(b: string): set<string> {
    {b + CA_SUFFIX, b + CRT_SUFFIX, b + KEY_SUFFIX}
  }

  /** The keys of the data of a nodeset, from the base names of its nodes. */
  ghost function CertKeys(bases: set<string>): set<string> {
    set b, k | b in bases && k in BlockKeys(b) :: k
  }

  ghost predicate IsNode(bases: set<string>, x: Triple) {
    exists b :: b in bases && x == Block(b)
  }

  /** The t-th three keys of the listing. */
  function TripleAt(keys: seq<string>, t: nat): Triple
    requires t < |keys| / 3
  {
    Triple(keys[3 * t], keys[3 * t + 1], keys[3 * t + 2])
  }

  /** Every aligned triple of the listing is the block of one node. */
  ghost predicate Aligned(keys: seq<string>, bases: set<string>) {
    && |keys| % 3 == 0
    && forall t :: 0 <= t < |keys| / 3 ==> IsNode(bases, TripleAt(keys, t))
  }

  // ---------------------------------------------------------------- order of concatenations

  lemma {:induction false} CommonPrefix(p: string, x: string, y: string)
    ensures Less(p + x, p + y) == Less(x, y)
    decreases |p|
  {
    if p == [] {
      assert p + x == x && p + y == y;
    } else {
      CommonPrefix(p[1..], x, y);
      assert (p + x)[1..] == p[1..] + x && (p + y)[1..] == p[1..] + y;
    }
  }

  /** Names that part ways keep their order whatever follows them. */
  lemma {:induction false} PartedWays(a: string, b: string, x: string, y: string)
    requires Less(a, b) && !(a <= b)
    ensures Less(a + x, b + y)
    decreases |a|
  {
    if a[0] == b[0] {
      PartedWays(a[1..], b[1..], x, y);
      assert a == [a[0]] + a[1..] && b == [b[0]] + b[1..];
      assert (a + x)[1..] == a[1..] + x && (b + y)[1..] == b[1..] + y;
    }
  }

  lemma {:induction false} SuffixesAscend()
    ensures Less(CA_SUFFIX, CRT_SUFFIX) && Less(CRT_SUFFIX, KEY_SUFFIX) && Less(CA_SUFFIX, KEY_SUFFIX)
  {
    CommonPrefix("-", "ca.crt", "tls.crt");
    CommonPrefix("-", "ca.crt", "tls.key");
    CommonPrefix("-tls.", "crt", "key");
    assert CA_SUFFIX == "-" + "ca.crt" && CRT_SUFFIX == "-" + "tls.crt" && KEY_SUFFIX == "-" + "tls.key";
    assert CRT_SUFFIX == "-tls." + "crt" && KEY_SUFFIX == "-tls." + "key";
  }

  lemma {:induction false} BlockAscends(b: string)
    ensures Less(b + CA_SUFFIX, b + CRT_SUFFIX)
      && Less(b + CRT_SUFFIX, b + KEY_SUFFIX) && Less(b + CA_SUFFIX, b + KEY_SUFFIX)
  {
    SuffixesAscend();
    CommonPrefix(b, CA_SUFFIX, CRT_SUFFIX);
    CommonPrefix(b, CRT_SUFFIX, KEY_SUFFIX);
    CommonPrefix(b, CA_SUFFIX, KEY_SUFFIX);
  }

  /** No key belongs to two nodes. */
  lemma {:induction false} KeyHasOneBase(a: string, b: string, k: string)
    requires k in BlockKeys(a) && k in BlockKeys(b)
    ensures a == b
  {
    var n := |k|;
    assert (a + CA_SUFFIX)[|a| + 6] == 't' && (a + CRT_SUFFIX)[|a| + 7] == 't' && (a + KEY_SUFFIX)[|a| + 7] == 'y';
    assert (b + CA_SUFFIX)[|b| + 6] == 't' && (b + CRT_SUFFIX)[|b| + 7] == 't' && (b + KEY_SUFFIX)[|b| + 7] == 'y';
    assert (a + CA_SUFFIX)[|a|] == '-' && (a + CRT_SUFFIX)[|a| + 1] == 't';
    assert (b + CA_SUFFIX)[|b|] == '-' && (b + CRT_SUFFIX)[|b| + 1] == 't';
    assert |a| == |b|;
    assert a == k[..|a|] && b == k[..|b|];
  }

  // ---------------------------------------------------------------- separated blocks

  ghost predicate Before(a: string, b: string) {
    forall x, y :: x in BlockKeys(a) && y in BlockKeys(b) ==> Less(x, y)
  }

  ghost predicate Separated(a: string, b: string) {
    Before(a, b) || Before(b, a)
  }

  ghost predicate AllSeparated(bases: set<string>) {
    forall a, b :: a in bases && b in bases && a != b ==> Separated(a, b)
  }

  /** The node whose key comes first comes first with all its keys. */
  lemma {:induction false} FirstBlock(bases: set<string>, keys: seq<string>) returns (b: string)
    requires AscendingListing(keys, CertKeys(bases)) && AllSeparated(bases) && bases != {}
    ensures b in bases && forall c :: c in bases && c != b ==> Before(b, c)
  {
    var d :| d in bases;
    assert d + CA_SUFFIX in BlockKeys(d);
    assert d + CA_SUFFIX in keys;
    assert keys[0] in keys;
    b :| b in bases && keys[0] in BlockKeys(b);
    forall c | c in bases && c != b ensures Before(b, c) {
      if !Before(b, c) {
        var x := c + CA_SUFFIX;
        assert x in BlockKeys(c) && x in keys;
        assert Less(x, keys[0]);
        var i :| 0 <= i < |keys| && keys[i] == x;
        LessAsymmetric(x, keys[0]);
        LessIrreflexive(x);
        assert false;
      }
    }
  }

  lemma {:induction false} CertKeysSplit(bases: set<string>, b: string)
    requires b in bases
    ensures CertKeys(bases) == CertKeys(bases - {b}) + BlockKeys(b)
  {
  }

  lemma {:induction false} BlockInFront(b: string, rest: seq<string>)
    requires Ascending(rest) && forall k :: k in rest ==> Less(b + KEY_SUFFIX, k)
    ensures Ascending([b + CA_SUFFIX, b + CRT_SUFFIX, b + KEY_SUFFIX] + rest)
  {
    BlockAscends(b);
    forall k | k in rest ensures Less(b + CA_SUFFIX, k) && Less(b + CRT_SUFFIX, k) {
      LessTransitive(b + CA_SUFFIX, b + KEY_SUFFIX, k);
      LessTransitive(b + CRT_SUFFIX, b + KEY_SUFFIX, k);
    }
    var all := [b + CA_SUFFIX, b + CRT_SUFFIX, b + KEY_SUFFIX] + rest;
    assert forall i :: 3 <= i < |all| ==> all[i] == rest[i - 3] && all[i] in rest;
  }

  /** The listing is the first block followed by the listing of the other nodes. */
  lemma {:induction false} ListingWithFirst(bases: set<string>, keys: seq<string>, b: string, rest: seq<string>)
    requires AscendingListing(keys, CertKeys(bases)) && AscendingListing(rest, CertKeys(bases - {b}))
    requires b in bases && forall c :: c in bases && c != b ==> Before(b, c)
    ensures keys == [b + CA_SUFFIX, b + CRT_SUFFIX, b + KEY_SUFFIX] + rest
  {
    forall k | k in rest ensures Less(b + KEY_SUFFIX, k) {
      var c :| c in bases - {b} && k in BlockKeys(c);
      assert Before(b, c) && b + KEY_SUFFIX in BlockKeys(b);
    }
    BlockInFront(b, rest);
    CertKeysSplit(bases, b);
    AscendingIsUnique([b + CA_SUFFIX, b + CRT_SUFFIX, b + KEY_SUFFIX] + rest, keys);
  }

  lemma {:induction false} SeparatedIsAligned(bases: set<string>, keys: seq<string>)
    requires AscendingListing(keys, CertKeys(bases)) && AllSeparated(bases)
    ensures Aligned(keys, bases)
    decreases |bases|
  {
    if bases == {} {
      AscendingIsUnique(keys, []);
    } else {
      var b := FirstBlock(bases, keys);
      var rest := SortedKeys(CertKeys(bases - {b}));
      SeparatedIsAligned(bases - {b}, rest);
      ListingWithFirst(bases, keys, b, rest);
      AlignedCons(b, rest, bases, keys);
    }
  }

  lemma {:induction false} AlignedCons(b: string, rest: seq<string>, bases: set<string>, all: seq<string>)
    requires b in bases && Aligned(rest, bases - {b})
    requires all == [b + CA_SUFFIX, b + CRT_SUFFIX, b + KEY_SUFFIX] + rest
    ensures Aligned(all, bases)
  {
    forall t | 0 <= t < |all| / 3 ensures IsNode(bases, TripleAt(all, t)) {
      if t > 0 {
        assert TripleAt(all, t) == TripleAt(rest, t - 1);
        assert IsNode(bases - {b}, TripleAt(rest, t - 1));
      } else {
        assert TripleAt(all, t) == Block(b);
      }
    }
  }

  /** Where the block of a node stands in an aligned listing. */
  lemma {:induction false} BlockPosition(bases: set<string>, keys: seq<string>, a: string) returns (t: nat)
    requires AscendingListing(keys, CertKeys(bases)) && Aligned(keys, bases) && a in bases
    ensures t < |keys| / 3 && TripleAt(keys, t) == Block(a)
  {
    assert a + CA_SUFFIX in BlockKeys(a);
    assert a + CA_SUFFIX in keys;
    var p :| 0 <= p < |keys| && keys[p] == a + CA_SUFFIX;
    t := p / 3;
    assert IsNode(bases, TripleAt(keys, t));
    var c :| c in bases && TripleAt(keys, t) == Block(c);
    assert keys[p] in BlockKeys(c);
    KeyHasOneBase(a, c, keys[p]);
  }

  lemma {:induction false} AlignedIsSeparated(bases: set<string>, keys: seq<string>)
    requires AscendingListing(keys, CertKeys(bases)) && Aligned(keys, bases)
    ensures AllSeparated(bases)
  {
    forall a, b | a in bases && b in bases && a != b ensures Separated(a, b) {
      var t := BlockPosition(bases, keys, a);
      var s := BlockPosition(bases, keys, b);
      if t < s {
        assert Before(a, b);
      } else if s < t {
        assert Before(b, a);
      } else {
        KeyHasOneBase(a, b, keys[3 * t]);
      }
    }
  }

  // ---------------------------------------------------------------- the condition on base names

  /** A suffix that sorts before the first or after the last entry of the shorter name. */
  predicate Clear(suffix: string) {
    Less(suffix + KEY_SUFFIX, CA_SUFFIX) || Less(KEY_SUFFIX, suffix + CA_SUFFIX)
  }

  ghost predicate ClearNames(bases: set<string>) {
    forall a, b :: a in bases && b in bases && a != b && a <= b ==> Clear(b[|a|..])
  }

  lemma {:induction false} BeforeByEnds(a: string, b: string)
    ensures Before(a, b) <==> Less(a + KEY_SUFFIX, b + CA_SUFFIX)
  {
    BlockAscends(a);
    BlockAscends(b);
    if Less(a + KEY_SUFFIX, b + CA_SUFFIX) {
      forall x, y | x in BlockKeys(a) && y in BlockKeys(b) ensures Less(x, y) {
        if x != a + KEY_SUFFIX {
          LessTransitive(x, a + KEY_SUFFIX, b + CA_SUFFIX);
        }
        if y != b + CA_SUFFIX {
          LessTransitive(x, b + CA_SUFFIX, y);
        }
      }
    }
  }

  lemma {:induction false} PrefixSeparation(a: string, b: string)
    requires a <= b
    ensures Separated(a, b) <==> Clear(b[|a|..])
  {
    var t := b[|a|..];
    BeforeByEnds(a, b);
    BeforeByEnds(b, a);
    CommonPrefix(a, KEY_SUFFIX, t + CA_SUFFIX);
    CommonPrefix(a, t + KEY_SUFFIX, CA_SUFFIX);
    assert b + CA_SUFFIX == a + (t + CA_SUFFIX) && b + KEY_SUFFIX == a + (t + KEY_SUFFIX);
  }

  lemma {:induction false} PartedNamesAreSeparated(a: string, b: string)
    requires !(a <= b) && !(b <= a)
    ensures Separated(a, b)
  {
    LessTotal(a, b);
    BeforeByEnds(a, b);
    BeforeByEnds(b, a);
    if Less(a, b) {
      PartedWays(a, b, KEY_SUFFIX, CA_SUFFIX);
    } else {
      PartedWays(b, a, KEY_SUFFIX, CA_SUFFIX);
    }
  }

  /** The exact condition under which the triples of the sorted keys are the nodes. */
  lemma {:induction false} AlignedIffClearNames(bases: set<string>, keys: seq<string>)
    requires AscendingListing(keys, CertKeys(bases))
    ensures Aligned(keys, bases) <==> ClearNames(bases)
  {
    if ClearNames(bases) {
      forall a, b | a in bases && b in bases && a != b ensures Separated(a, b) {
        if a <= b {
          PrefixSeparation(a, b);
        } else if b <= a {
          PrefixSeparation(b, a);
        } else {
          PartedNamesAreSeparated(a, b);
        }
      }
      SeparatedIsAligned(bases, keys);
    }
    if Aligned(keys, bases) {
      AlignedIsSeparated(bases, keys);
      forall a, b | a in bases && b in bases && a != b && a <= b ensures Clear(b[|a|..]) {
        assert Separated(a, b);
        PrefixSeparation(a, b);
      }
    }
  }

  /** A name that continues another one by anything but a dash does no harm. */
  lemma {:induction false} OnlyDashesInterleave(suffix: string)
    requires suffix != [] && suffix[0] != '-'
    ensures Clear(suffix)
  {
    assert (suffix + KEY_SUFFIX)[0] == suffix[0] && (suffix + CA_SUFFIX)[0] == suffix[0];
    assert CA_SUFFIX[0] == '-' && KEY_SUFFIX[0] == '-';
  }

  /**
   The entries of two nodes interleave when the name of one is that of the other with "-d" behind it. The base name of
   a node whose host name is fully qualified is that host name, so the hosts "compute-0.lab" and "compute-0.lab-d", in
   the domains "lab" and "lab-d", are such a pair.
   */
  lemma {:induction false} DashNamesInterleave(b: string, keys: seq<string>)
    requires AscendingListing(keys, CertKeys({b, b + "-d"}))
    ensures !Aligned(keys, {b, b + "-d"})
  {
    var bases := {b, b + "-d"};
    assert (b + "-d")[|b|..] == "-d";
    var longer := "-d" + KEY_SUFFIX;
    CommonPrefix("-", "d-tls.key", "ca.crt");
    CommonPrefix("-", "tls.key", "d-ca.crt");
    assert longer == "-" + "d-tls.key" && "-d" + CA_SUFFIX == "-" + "d-ca.crt";
    assert CA_SUFFIX == "-" + "ca.crt" && KEY_SUFFIX == "-" + "tls.key";
    assert !Clear("-d");
    assert b in bases && b + "-d" in bases && b <= b + "-d" && b != b + "-d" && !Clear((b + "-d")[|b|..]);
    AlignedIffClearNames(bases, keys);
  }

  // ---------------------------------------------------------------- no node is split

  /** A secret holds all entries of a node or none. */
  ghost predicate WholeNodes(bases: set<string>, secret: CertsData) {
    forall b :: b in bases ==> BlockKeys(b) <= secret.Keys || BlockKeys(b) !! secret.Keys
  }

  lemma {:induction false} BinHoldsWholeNodes(bases: set<string>, bin: seq<Triple>)
    requires forall x :: x in bin ==> IsNode(bases, x)
    ensures forall b :: b in bases ==> BlockKeys(b) <= KeysOf(bin) || BlockKeys(b) !! KeysOf(bin)
  {
    forall b | b in bases && !(BlockKeys(b) !! KeysOf(bin)) ensures BlockKeys(b) <= KeysOf(bin) {
      var k :| k in BlockKeys(b) && k in KeysOf(bin);
      KeysOfMember(bin, k);
      var i :| 0 <= i < |bin| && k in KeysOf([bin[i]]);
      assert IsNode(bases, bin[i]);
      var c :| c in bases && bin[i] == Block(c);
      KeysOfOne(bin[i]);
      KeyHasOneBase(b, c, k);
      forall x | x in BlockKeys(b) ensures x in KeysOf(bin) {
        KeysOfMember(bin, x);
        assert x in KeysOf([bin[i]]);
      }
    }
  }

  lemma {:induction false} ItemsAreNodes(bases: set<string>, keys: seq<string>)
    requires Aligned(keys, bases)
    ensures forall x :: x in Triples(keys, |keys| / 3) ==> IsNode(bases, x)
  {
    var items := Triples(keys, |keys| / 3);
    forall t | 0 <= t < |items| ensures IsNode(bases, items[t]) {
      assert items[t] == TripleAt(keys, t);
    }
  }

  lemma {:induction false} BinIsBlocks(bases: set<string>, bins: seq<seq<Triple>>, i: nat)
    requires i < |bins| && forall x :: x in Flatten(bins) ==> IsNode(bases, x)
    ensures forall x :: x in bins[i] ==> IsNode(bases, x)
  {
    forall x | x in bins[i] ensures x in Flatten(bins) {
      BinItemsWithin(bins, i, x);
    }
  }

  /** With clear names no node's CA, certificate and key are spread over two secrets. */
  lemma {:induction false} NodesAreNotSplit(max: int, data: CertsData, bases: set<string>, keys: seq<string>)
    requires data.Keys == CertKeys(bases) && AscendingListing(keys, data.Keys) && ClearNames(bases)
    ensures PackKeys(max, data, keys).Packed?
    ensures forall i :: 0 <= i < |PackKeys(max, data, keys).secrets| ==>
      WholeNodes(bases, PackKeys(max, data, keys).secrets[i])
  {
    AlignedIffClearNames(bases, keys);
    var bins := NextFit(max, data, Triples(keys, |keys| / 3)).bins;
    BinsListKeys(max, data, keys);
    ItemsAreNodes(bases, keys);
    forall i | 0 <= i < |bins| ensures WholeNodes(bases, Contents(data, bins[i])) {
      ContentsKeys(data, bins, i);
      BinIsBlocks(bases, bins, i);
      BinHoldsWholeNodes(bases, bins[i]);
    }
  }
}
