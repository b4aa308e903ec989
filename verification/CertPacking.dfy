/**
 Packing the certificates of a nodeset into secrets: next-fit over the sorted keys, three at a time.
 */
module CertPacking {
  import opened StringOrder

  /** The data under each key, by its characters. */
  type CertsData = map<string, string>

  /** Three neighbouring keys: by intent the CA, the certificate and the key of one node. */
  datatype Triple = Triple(ca: string, crt: string, key: string)

  function KeySize(data: CertsData, key: string): nat {
    |key| + if key in data then |data[key]| else 0
  }

  function Size(data: CertsData, t: Triple): nat {
    KeySize(data, t.ca) + KeySize(data, t.crt) + KeySize(data, t.key)
  }

  function Load(data: CertsData, bin: seq<Triple>): nat {
    if bin == [] then 0 else Load(data, bin[..|bin| - 1]) + Size(data, bin[|bin| - 1])
  }

  function Flatten(bins: seq<seq<Triple>>): seq<Triple> {
    if bins == [] then [] else Flatten(bins[..|bins| - 1]) + bins[|bins| - 1]
  }

  // ---------------------------------------------------------------- next-fit

  /** total is the load of the last bin; with no bin yet, a full one. */
  datatype Fit = Fit(bins: seq<seq<Triple>>, total: int)

  function Place(max: int, data: CertsData, fit: Fit, t: Triple): Fit {
    if fit.total + Size(data, t) > max || fit.bins == [] then Fit(fit.bins + [[t]], Size(data, t))
    else
      var last := |fit.bins| - 1;
      Fit(fit.bins[last := fit.bins[last] + [t]], fit.total + Size(data, t))
  }

  function NextFit(max: int, data: CertsData, items: seq<Triple>): Fit {
    if items == [] then Fit([], max) else Place(max, data, NextFit(max, data, items[..|items| - 1]), items[|items| - 1])
  }

  /** A bin stays within the maximum or holds one triple only, and two neighbours together exceed the maximum. */
  ghost predicate GoodBins(max: int, data: CertsData, bins: seq<seq<Triple>>) {
    && (forall i :: 0 <= i < |bins| ==> |bins[i]| == 1 || (bins[i] != [] && Load(data, bins[i]) <= max))
    && (forall i, j :: 0 <= i && j == i + 1 && j < |bins| ==> Load(data, bins[i]) + Load(data, bins[j]) > max)
  }

  ghost predicate Consistent(max: int, data: CertsData, fit: Fit) {
    && GoodBins(max, data, fit.bins)
    && fit.total == (if fit.bins == [] then max else Load(data, fit.bins[|fit.bins| - 1]))
  }

  lemma {:induction false} LoadGrows(data: CertsData, bin: seq<Triple>, t: Triple)
    ensures Load(data, bin + [t]) == Load(data, bin) + Size(data, t)
  {
    assert (bin + [t])[..|bin|] == bin;
  }

  lemma {:induction false} OpenIsGood(max: int, data: CertsData, bins: seq<seq<Triple>>, t: Triple)
    requires GoodBins(max, data, bins)
    requires bins != [] ==> Load(data, bins[|bins| - 1]) + Size(data, t) > max
    ensures GoodBins(max, data, bins + [[t]]) && Load(data, [t]) == Size(data, t)
  {
    assert Load(data, [t]) == Size(data, t) by {
      LoadGrows(data, [], t);
      assert [] + [t] == [t];
    }
  }

  lemma {:induction false} FlattenOpen(bins: seq<seq<Triple>>, t: Triple)
    ensures Flatten(bins + [[t]]) == Flatten(bins) + [t]
  {
    assert (bins + [[t]])[..|bins|] == bins;
  }

  lemma {:induction false} FillIsGood(max: int, data: CertsData, bins: seq<seq<Triple>>, t: Triple)
    requires GoodBins(max, data, bins) && bins != []
    requires Load(data, bins[|bins| - 1]) + Size(data, t) <= max
    ensures var last := |bins| - 1;
      var r := bins[last := bins[last] + [t]];
      && GoodBins(max, data, r)
      && Load(data, r[last]) == Load(data, bins[last]) + Size(data, t)
      && Flatten(r) == Flatten(bins) + [t]
  {
    var last := |bins| - 1;
    var r := bins[last := bins[last] + [t]];
    LoadGrows(data, bins[last], t);
    assert r[..last] == bins[..last];
    assert Flatten(r) == Flatten(bins[..last]) + (bins[last] + [t]);
  }

  lemma {:induction false} PlaceIsGood(max: int, data: CertsData, fit: Fit, t: Triple)
    requires Consistent(max, data, fit)
    ensures Consistent(max, data, Place(max, data, fit, t))
    ensures Flatten(Place(max, data, fit, t).bins) == Flatten(fit.bins) + [t]
  {
    if fit.total + Size(data, t) > max || fit.bins == [] {
      OpenIsGood(max, data, fit.bins, t);
      FlattenOpen(fit.bins, t);
    } else {
      FillIsGood(max, data, fit.bins, t);
    }
  }

  /** Next-fit keeps every triple, in order, in bins that could not be merged with their neighbours. */
  lemma {:induction false} NextFitIsGood(max: int, data: CertsData, items: seq<Triple>)
    ensures Consistent(max, data, NextFit(max, data, items))
    ensures Flatten(NextFit(max, data, items).bins) == items
    decreases |items|
  {
    if items != [] {
      NextFitIsGood(max, data, items[..|items| - 1]);
      PlaceIsGood(max, data, NextFit(max, data, items[..|items| - 1]), items[|items| - 1]);
    }
  }

  lemma {:induction false} LoadSplits(data: CertsData, a: seq<Triple>, b: seq<Triple>)
    ensures Load(data, a + b) == Load(data, a) + Load(data, b)
    decreases |b|
  {
    if b == [] {
      assert a + b == a;
    } else {
      LoadSplits(data, a, b[..|b| - 1]);
      assert (a + b)[..|a + b| - 1] == a + b[..|b| - 1];
    }
  }

  /** Neighbours exceed the maximum together, so 2m bins or more hold at least m * (max + 1). */
  lemma {:induction false} PairsExceed(max: nat, data: CertsData, bins: seq<seq<Triple>>, m: nat)
    requires GoodBins(max, data, bins) && 2 * m <= |bins|
    ensures m * (max + 1) <= Load(data, Flatten(bins))
    decreases m
  {
    if m > 0 {
      var n := |bins|;
      var shorter := bins[..n - 2];
      assert bins[..n - 1][..n - 2] == shorter;
      PairsExceed(max, data, shorter, m - 1);
      LoadSplits(data, Flatten(shorter), bins[n - 2]);
      LoadSplits(data, Flatten(shorter) + bins[n - 2], bins[n - 1]);
      assert Load(data, bins[n - 2]) + Load(data, bins[n - 1]) > max;
      OneMore(m, max + 1);
    }
  }

  lemma {:induction false} OneMore(m: nat, x: nat)
    requires m > 0
    ensures m * x == (m - 1) * x + x
  {
  }

  function Total(loads: seq<nat>): nat {
    if loads == [] then 0 else loads[0] + Total(loads[1..])
  }

  lemma {:induction false} LoadsBound(max: nat, loads: seq<nat>)
    requires forall i :: 0 <= i < |loads| ==> loads[i] <= max
    ensures Total(loads) <= |loads| * max
  {
    if loads != [] {
      LoadsBound(max, loads[1..]);
      OneMore(|loads|, max);
    }
  }

  lemma {:induction false} MoreTimes(b: nat, m: nat, max: nat)
    ensures b <= m ==> b * max <= m * max
  {
  }

  lemma {:induction false} FewerPairs(m: nat, b: nat, max: nat, total: nat)
    requires 0 < total && m * (max + 1) <= total <= b * max
    ensures m < b
  {
    assert m * (max + 1) == m * max + m;
    MoreTimes(b, m, max);
  }

  /** However else the same data is spread over secrets within the maximum, next-fit uses less than twice as many. */
  lemma {:induction false} NextFitIsWithinTwice(max: nat, data: CertsData, items: seq<Triple>, loads: seq<nat>)
    requires Load(data, items) > 0
    requires forall i :: 0 <= i < |loads| ==> loads[i] <= max
    requires Total(loads) == Load(data, items)
    ensures |NextFit(max, data, items).bins| < 2 * |loads|
  {
    NextFitIsGood(max, data, items);
    var bins := NextFit(max, data, items).bins;
    PairsExceed(max, data, bins, |bins| / 2);
    LoadsBound(max, loads);
    FewerPairs(|bins| / 2, |loads|, max, Load(data, items));
  }

  // ---------------------------------------------------------------- secrets

  function KeysOf(bin: seq<Triple>): set<string> {
    if bin == [] then {}
    else KeysOf(bin[..|bin| - 1]) + {bin[|bin| - 1].ca, bin[|bin| - 1].crt, bin[|bin| - 1].key}
  }

  /** The part of the data under the keys of a bin. */
  function Contents(data: CertsData, bin: seq<Triple>): CertsData {
    map k | k in KeysOf(bin) && k in data :: data[k]
  }

  function SecretsOf(data: CertsData, bins: seq<seq<Triple>>): (secrets: seq<CertsData>)
    ensures |secrets| == |bins|
  {
    seq(|bins|, i requires 0 <= i < |bins| => Contents(data, bins[i]))
  }

  /** The whole triples of a sorted listing of keys. */
  function Triples(keys: seq<string>, n: nat): (items: seq<Triple>)
    requires 3 * n <= |keys|
    ensures |items| == n
  {
    seq(n, t requires 0 <= t < n => Triple(keys[3 * t], keys[3 * t + 1], keys[3 * t + 2]))
  }

  datatype Outcome = Packed(secrets: seq<CertsData>) | Panic

  function PackKeys(max: int, data: CertsData, keys: seq<string>): Outcome {
    if |keys| % 3 == 2 then Panic
    else Packed(SecretsOf(data, NextFit(max, data, Triples(keys, |keys| / 3)).bins))
  }

  lemma {:induction false} TriplesStep(keys: seq<string>, n: nat)
    requires 3 * n + 3 <= |keys|
    ensures Triples(keys, n + 1) == Triples(keys, n) + [Triple(keys[3 * n], keys[3 * n + 1], keys[3 * n + 2])]
  {
  }

  lemma {:induction false} NextFitStep(max: int, data: CertsData, keys: seq<string>, n: nat)
    requires 3 * n + 3 <= |keys|
    ensures NextFit(max, data, Triples(keys, n + 1))
      == Place(max, data, NextFit(max, data, Triples(keys, n)), Triple(keys[3 * n], keys[3 * n + 1], keys[3 * n + 2]))
  {
    TriplesStep(keys, n);
    assert Triples(keys, n + 1)[..n] == Triples(keys, n);
  }

  /** A secret with the three entries of a node written into it. */
  function Add3(secret: CertsData, data: CertsData, ca: string, crt: string, key: string): CertsData
    requires ca in data && crt in data && key in data
  {
    secret[ca := data[ca]][crt := data[crt]][key := data[key]]
  }

  lemma {:induction false} ContentsGrow(data: CertsData, bin: seq<Triple>, t: Triple)
    requires t.ca in data && t.crt in data && t.key in data
    ensures Contents(data, bin + [t]) == Add3(Contents(data, bin), data, t.ca, t.crt, t.key)
  {
    assert (bin + [t])[..|bin|] == bin;
  }

  /** Writing a triple into a new secret or into the last one. */
  lemma {:induction false} PlaceInSecrets(max: int, data: CertsData, fit: Fit, t: Triple)
    requires t.ca in data && t.crt in data && t.key in data
    ensures var secrets, r := SecretsOf(data, fit.bins), SecretsOf(data, Place(max, data, fit, t).bins);
      if fit.total + Size(data, t) > max || fit.bins == [] then
        r == secrets + [Add3(map[], data, t.ca, t.crt, t.key)]
      else
        var last := |secrets| - 1;
        r == secrets[last := Add3(secrets[last], data, t.ca, t.crt, t.key)]
  {
    if fit.total + Size(data, t) > max || fit.bins == [] {
      ContentsGrow(data, [], t);
      assert [] + [t] == [t];
      assert Contents(data, []) == map[];
    } else {
      ContentsGrow(data, fit.bins[|fit.bins| - 1], t);
    }
  }

  /** A sorted listing has distinct keys, so a triple is never empty. */
  lemma {:induction false} TripleIsNotEmpty(data: CertsData, keys: seq<string>, k: nat)
    requires AscendingListing(keys, data.Keys) && k + 2 < |keys|
    ensures keys[k] in data && keys[k + 1] in data && keys[k + 2] in data
    ensures Size(data, Triple(keys[k], keys[k + 1], keys[k + 2])) > 0
  {
    assert keys[k] in keys && keys[k + 1] in keys && keys[k + 2] in keys;
    assert Less(keys[k], keys[k + 1]);
  }

  /** The state of the loop after n triples. */
  ghost predicate After(max: int, data: CertsData, keys: seq<string>, n: nat, ci: seq<CertsData>, totalSize: int)
    requires 3 * n <= |keys|
  {
    var fit := NextFit(max, data, Triples(keys, n));
    ci == SecretsOf(data, fit.bins) && totalSize == fit.total && (fit.bins == [] ==> totalSize == max)
  }

  lemma {:induction false} AfterOneMore(max: int, data: CertsData, keys: seq<string>, n: nat,
    ci: seq<CertsData>, totalSize: int, ci': seq<CertsData>, totalSize': int)
    requires AscendingListing(keys, data.Keys) && 3 * n + 2 < |keys|
    requires After(max, data, keys, n, ci, totalSize)
    requires keys[3 * n] in data && keys[3 * n + 1] in data && keys[3 * n + 2] in data
    requires var sz := Size(data, Triple(keys[3 * n], keys[3 * n + 1], keys[3 * n + 2]));
      if totalSize + sz > max then
        ci' == ci + [Add3(map[], data, keys[3 * n], keys[3 * n + 1], keys[3 * n + 2])] && totalSize' == sz
      else
        && ci != [] && totalSize' == totalSize + sz
        && ci' == ci[|ci| - 1 := Add3(ci[|ci| - 1], data, keys[3 * n], keys[3 * n + 1], keys[3 * n + 2])]
    ensures After(max, data, keys, n + 1, ci', totalSize')
  {
    NextFitStep(max, data, keys, n);
    TripleIsNotEmpty(data, keys, 3 * n);
    PlaceInSecrets(max, data, NextFit(max, data, Triples(keys, n)), Triple(keys[3 * n], keys[3 * n + 1],
        keys[3 * n + 2]));
  }

  /** One round of the loop: a new secret when the triple does not fit, then the three writes. */
  method AddTriple(secretMaxSize: int, certsData: CertsData, keys: seq<string>, k: nat, ci: seq<CertsData>,
      totalSize: int, ghost n: nat)
    returns (ci': seq<CertsData>, totalSize': int)
    requires AscendingListing(keys, certsData.Keys) && k + 2 < |keys| && k == 3 * n
    requires After(secretMaxSize, certsData, keys, n, ci, totalSize)
    ensures After(secretMaxSize, certsData, keys, n + 1, ci', totalSize')
  {
    TripleIsNotEmpty(certsData, keys, k);
    var szCa := |certsData[keys[k]]| + |keys[k]|;
    var szCrt := |certsData[keys[k + 1]]| + |keys[k + 1]|;
    var szKey := |certsData[keys[k + 2]]| + |keys[k + 2]|;
    var sz := szCa + szCrt + szKey;
    ci', totalSize' := ci, totalSize;
    if totalSize' + sz > secretMaxSize {
      ci' := ci' + [map[]];
      totalSize' := 0;
    }
    totalSize' := totalSize' + sz;
    ci' := ci'[|ci'| - 1 := Add3(ci'[|ci'| - 1], certsData, keys[k], keys[k + 1], keys[k + 2])];
    AfterOneMore(secretMaxSize, certsData, keys, n, ci, totalSize, ci', totalSize');
  }

  /**
   The packing loop. secretMaxSize may be any integer. The first triple always opens a secret, so the pointer
   to the current one is never nil; with two keys left over, the loop indexes past the end.
   */
  method PackSorted(secretMaxSize: int, certsData: CertsData, keys: seq<string>) returns (r: Outcome)
    requires AscendingListing(keys, certsData.Keys)
    ensures r == PackKeys(secretMaxSize, certsData, keys)
  {
    var ci: seq<CertsData> := [];
    var totalSize := secretMaxSize;
    var k := 0;
    ghost var n := 0;
    while k < |keys| - 1
      invariant k == 3 * n && k <= |keys|
      invariant After(secretMaxSize, certsData, keys, n, ci, totalSize)
    {
      if k + 2 >= |keys| {
        return Panic;
      }
      ci, totalSize := AddTriple(secretMaxSize, certsData, keys, k, ci, totalSize, n);
      k := k + 3;
      n := n + 1;
    }
    r := Packed(ci);
  }

  /** Collects the keys in whatever order the map is ranged over, sorts them and packs. */
  method CreateSecretsDataStructure(secretMaxSize: int, certsData: CertsData,
      ghost sorted: seq<string>) returns (r: Outcome)
    requires AscendingListing(sorted, certsData.Keys)
    ensures r == PackKeys(secretMaxSize, certsData, sorted)
  {
    var keys := CollectAndSort(certsData.Keys);
    AscendingIsUnique(keys, sorted);
    r := PackSorted(secretMaxSize, certsData, keys);
  }

  // ---------------------------------------------------------------- the secrets partition the data

  /** No key occurs in two triples. */
  ghost predicate DistinctKeys(items: seq<Triple>) {
    forall i, j :: 0 <= i < j < |items| ==> KeysOf([items[i]]) !! KeysOf([items[j]])
  }

  lemma {:induction false} KeysOfOne(t: Triple)
    ensures KeysOf([t]) == {t.ca, t.crt, t.key}
  {
    assert [t][..0] == [];
  }

  lemma {:induction false} KeysOfMember(bin: seq<Triple>, k: string)
    ensures k in KeysOf(bin) <==> exists i :: 0 <= i < |bin| && k in KeysOf([bin[i]])
    decreases |bin|
  {
    if bin != [] {
      var init := bin[..|bin| - 1];
      KeysOfMember(init, k);
      KeysOfOne(bin[|bin| - 1]);
      assert forall i :: 0 <= i < |init| ==> init[i] == bin[i];
    }
  }

  lemma {:induction false} KeysOfConcat(a: seq<Triple>, b: seq<Triple>)
    ensures KeysOf(a + b) == KeysOf(a) + KeysOf(b)
    decreases |b|
  {
    if b == [] {
      assert a + b == a;
    } else {
      KeysOfConcat(a, b[..|b| - 1]);
      assert (a + b)[..|a + b| - 1] == a + b[..|b| - 1];
    }
  }

  ghost predicate DisjointBins(bins: seq<seq<Triple>>) {
    forall i, j :: 0 <= i < j < |bins| ==> KeysOf(bins[i]) !! KeysOf(bins[j])
  }

  lemma {:induction false} BinKeysWithin(bins: seq<seq<Triple>>, i: nat)
    requires i < |bins|
    ensures KeysOf(bins[i]) <= KeysOf(Flatten(bins))
    decreases |bins|
  {
    var init := bins[..|bins| - 1];
    KeysOfConcat(Flatten(init), bins[|bins| - 1]);
    if i < |init| {
      BinKeysWithin(init, i);
    }
  }

  lemma {:induction false} KeysAreInBins(bins: seq<seq<Triple>>, k: string) returns (i: nat)
    requires k in KeysOf(Flatten(bins))
    ensures i < |bins| && k in KeysOf(bins[i])
    decreases |bins|
  {
    var init := bins[..|bins| - 1];
    KeysOfConcat(Flatten(init), bins[|bins| - 1]);
    if k in KeysOf(bins[|bins| - 1]) {
      i := |bins| - 1;
    } else {
      i := KeysAreInBins(init, k);
    }
  }

  lemma {:induction false} DistinctHalves(a: seq<Triple>, b: seq<Triple>)
    requires DistinctKeys(a + b)
    ensures DistinctKeys(a) && KeysOf(a) !! KeysOf(b)
  {
    var items := a + b;
    assert forall i :: 0 <= i < |a| ==> items[i] == a[i];
    assert forall i :: 0 <= i < |b| ==> items[|a| + i] == b[i];
    forall k | k in KeysOf(a) ensures k !in KeysOf(b) {
      KeysOfMember(a, k);
      KeysOfMember(b, k);
      var i :| 0 <= i < |a| && k in KeysOf([a[i]]);
      forall j | 0 <= j < |b| ensures k !in KeysOf([b[j]]) {
        assert KeysOf([items[i]]) !! KeysOf([items[|a| + j]]);
      }
    }
  }

  lemma {:induction false} BinsAreDisjoint(bins: seq<seq<Triple>>)
    requires DistinctKeys(Flatten(bins))
    ensures DisjointBins(bins)
    decreases |bins|
  {
    if bins != [] {
      var init := bins[..|bins| - 1];
      DistinctHalves(Flatten(init), bins[|bins| - 1]);
      BinsAreDisjoint(init);
      forall i | 0 <= i < |init| ensures KeysOf(bins[i]) !! KeysOf(bins[|bins| - 1]) {
        BinKeysWithin(init, i);
      }
    }
  }

  lemma {:induction false} TriplesAreDistinct(keys: seq<string>, n: nat)
    requires Ascending(keys) && 3 * n <= |keys|
    ensures DistinctKeys(Triples(keys, n))
  {
    var items := Triples(keys, n);
    forall i, j | 0 <= i < j < n ensures KeysOf([items[i]]) !! KeysOf([items[j]]) {
      KeysOfOne(items[i]);
      KeysOfOne(items[j]);
      forall a, b | 3 * i <= a < 3 * i + 3 && 3 * j <= b < 3 * j + 3 ensures keys[a] != keys[b] {
        LessIrreflexive(keys[a]);
      }
    }
  }

  lemma {:induction false} TriplesHoldKeys(keys: seq<string>, n: nat)
    requires 3 * n <= |keys|
    ensures forall k :: k in KeysOf(Triples(keys, n)) <==> k in keys[..3 * n]
  {
    if n > 0 {
      TriplesHoldKeys(keys, n - 1);
      TriplesStep(keys, n - 1);
      assert Triples(keys, n)[..n - 1] == Triples(keys, n - 1);
      assert keys[..3 * n] == keys[..3 * (n - 1)] + [keys[3 * n - 3], keys[3 * n - 2], keys[3 * n - 1]];
    }
  }

  /** The keys that end up in some secret, all of them when the number of keys is a multiple of three. */
  ghost predicate Partition(data: CertsData, keys: seq<string>, secrets: seq<CertsData>) {
    && (forall i, j :: 0 <= i < j < |secrets| ==> secrets[i].Keys !! secrets[j].Keys)
    && (forall i, k :: 0 <= i < |secrets| && k in secrets[i] ==> k in keys && k in data && secrets[i][k] == data[k])
    && (forall k :: k in keys ==> exists i :: 0 <= i < |secrets| && k in secrets[i])
  }

  lemma {:induction false} ContentsKeys(data: CertsData, bins: seq<seq<Triple>>, i: nat)
    requires i < |bins| && forall k :: k in KeysOf(Flatten(bins)) ==> k in data
    ensures Contents(data, bins[i]).Keys == KeysOf(bins[i])
  {
    BinKeysWithin(bins, i);
  }

  /** Bins over distinct keys of the data become secrets that partition the data under those keys. */
  lemma {:induction false} BinsPartition(data: CertsData, keys: seq<string>, bins: seq<seq<Triple>>)
    requires DistinctKeys(Flatten(bins))
    requires forall k :: k in KeysOf(Flatten(bins)) <==> k in keys
    requires forall k :: k in keys ==> k in data
    ensures Partition(data, keys, SecretsOf(data, bins))
  {
    var secrets := SecretsOf(data, bins);
    BinsAreDisjoint(bins);
    forall i, k | 0 <= i < |secrets| && k in secrets[i] ensures k in keys && k in data && secrets[i][k] == data[k] {
      BinKeysWithin(bins, i);
    }
    forall i, j | 0 <= i < j < |secrets| ensures secrets[i].Keys !! secrets[j].Keys {
      ContentsKeys(data, bins, i);
      ContentsKeys(data, bins, j);
    }
    forall k | k in keys ensures exists i :: 0 <= i < |secrets| && k in secrets[i] {
      var i := KeysAreInBins(bins, k);
      assert k in secrets[i];
    }
  }

  /** The keys that get packed: all of them, or all but the last when one is left over. */
  function PackedKeys(keys: seq<string>): seq<string> {
    keys[..3 * (|keys| / 3)]
  }

  /**
   The loop panics exactly when two keys are left over, and drops exactly the last key when one is. What it packs
   is a partition of the data under the other keys.
   */
  lemma {:induction false} PackingPartitions(max: int, data: CertsData, keys: seq<string>)
    requires AscendingListing(keys, data.Keys)
    ensures PackKeys(max, data, keys).Panic? <==> |keys| % 3 == 2
    ensures |keys| % 3 != 2 ==> Partition(data, PackedKeys(keys), PackKeys(max, data, keys).secrets)
    ensures |keys| % 3 == 0 ==> PackedKeys(keys) == keys
  {
    if |keys| % 3 != 2 {
      var items := Triples(keys, |keys| / 3);
      var packed := PackedKeys(keys);
      NextFitIsGood(max, data, items);
      TriplesAreDistinct(keys, |keys| / 3);
      TriplesHoldKeys(keys, |keys| / 3);
      forall k | k in packed ensures k in data {
        assert k in keys;
      }
      BinsPartition(data, packed, NextFit(max, data, items).bins);
    }
  }

  // ---------------------------------------------------------------- the size of a secret

  function SizeOver(secret: CertsData, keys: seq<string>): nat {
    if keys == [] then 0
    else |keys[0]| + (if keys[0] in secret then |secret[keys[0]]| else 0) + SizeOver(secret, keys[1..])
  }

  /** The size of a secret, counted over the entries it holds. */
  ghost function SecretSize(secret: CertsData): nat {
    SizeOver(secret, SortedKeys(secret.Keys))
  }

  /** The keys of a bin, in order. */
  function Listed(bin: seq<Triple>): seq<string> {
    if bin == [] then [] else [bin[0].ca, bin[0].crt, bin[0].key] + Listed(bin[1..])
  }

  lemma {:induction false} LoadFromFront(data: CertsData, bin: seq<Triple>)
    requires bin != []
    ensures Load(data, bin) == Size(data, bin[0]) + Load(data, bin[1..])
  {
    assert bin == [bin[0]] + bin[1..];
    LoadSplits(data, [bin[0]], bin[1..]);
    LoadGrows(data, [], bin[0]);
    assert [] + [bin[0]] == [bin[0]];
  }

  lemma {:induction false} LoadIsListedSize(data: CertsData, secret: CertsData, bin: seq<Triple>)
    requires forall k :: k in Listed(bin) ==> k in data && k in secret && secret[k] == data[k]
    ensures SizeOver(secret, Listed(bin)) == Load(data, bin)
    decreases |bin|
  {
    if bin != [] {
      var rest := Listed(bin[1..]);
      var all := [bin[0].ca, bin[0].crt, bin[0].key] + rest;
      assert all[0] in all && all[1] in all && all[2] in all;
      assert forall k :: k in rest ==> k in all;
      LoadIsListedSize(data, secret, bin[1..]);
      LoadFromFront(data, bin);
      assert all[1..][1..][1..] == rest;
      assert SizeOver(secret, all)
        == KeySize(secret, all[0]) + (KeySize(secret, all[1..][0]) + SizeOver(secret, all[1..][1..]));
    }
  }

  lemma {:induction false} ListedConcat(a: seq<Triple>, b: seq<Triple>)
    ensures Listed(a + b) == Listed(a) + Listed(b)
    decreases |a|
  {
    if a == [] {
      assert a + b == b;
    } else {
      ListedConcat(a[1..], b);
      assert (a + b)[1..] == a[1..] + b;
    }
  }

  lemma {:induction false} ListedTriples(keys: seq<string>, n: nat)
    requires 3 * n <= |keys|
    ensures Listed(Triples(keys, n)) == keys[..3 * n]
  {
    if n > 0 {
      ListedTriples(keys, n - 1);
      TriplesStep(keys, n - 1);
      var t := Triple(keys[3 * n - 3], keys[3 * n - 2], keys[3 * n - 1]);
      ListedConcat(Triples(keys, n - 1), [t]);
      assert Listed([t]) == [t.ca, t.crt, t.key];
      assert keys[..3 * n] == keys[..3 * (n - 1)] + [t.ca, t.crt, t.key];
    }
  }

  /** Every bin lists an ascending stretch of the keys. */
  lemma {:induction false} BinsAscend(bins: seq<seq<Triple>>, i: nat)
    requires i < |bins| && Ascending(Listed(Flatten(bins)))
    ensures Ascending(Listed(bins[i]))
    decreases |bins|
  {
    var init, last := bins[..|bins| - 1], bins[|bins| - 1];
    var a, b := Listed(Flatten(init)), Listed(last);
    ListedConcat(Flatten(init), last);
    if i < |init| {
      assert forall k :: 0 <= k < |a| ==> a[k] == (a + b)[k];
      BinsAscend(init, i);
    } else {
      assert forall k :: 0 <= k < |b| ==> b[k] == (a + b)[|a| + k];
    }
  }

  lemma {:induction false} ListedHoldsKeys(bin: seq<Triple>)
    ensures forall k :: k in Listed(bin) <==> k in KeysOf(bin)
    decreases |bin|
  {
    if bin != [] {
      ListedHoldsKeys(bin[1..]);
      assert bin == [bin[0]] + bin[1..];
      KeysOfConcat([bin[0]], bin[1..]);
      KeysOfOne(bin[0]);
    }
  }

  /** The size of a secret is the load of its bin. */
  lemma {:induction false} SecretSizeIsLoad(data: CertsData, bins: seq<seq<Triple>>, i: nat)
    requires i < |bins| && Ascending(Listed(Flatten(bins)))
    requires forall k :: k in KeysOf(Flatten(bins)) ==> k in data
    ensures SecretSize(Contents(data, bins[i])) == Load(data, bins[i])
  {
    var secret := Contents(data, bins[i]);
    BinKeysWithin(bins, i);
    ListedHoldsKeys(bins[i]);
    BinsAscend(bins, i);
    AscendingIsUnique(Listed(bins[i]), SortedKeys(secret.Keys));
    LoadIsListedSize(data, secret, bins[i]);
  }

  /** The bins of the packing list the packed keys. */
  lemma {:induction false} BinsListKeys(max: int, data: CertsData, keys: seq<string>)
    requires AscendingListing(keys, data.Keys)
    ensures var items := Triples(keys, |keys| / 3);
      var bins := NextFit(max, data, items).bins;
      && Flatten(bins) == items && Listed(items) == PackedKeys(keys) && Ascending(PackedKeys(keys))
      && (forall k :: k in KeysOf(items) ==> k in data)
  {
    NextFitIsGood(max, data, Triples(keys, |keys| / 3));
    ListedTriples(keys, |keys| / 3);
    TriplesHoldKeys(keys, |keys| / 3);
    forall k | k in PackedKeys(keys) ensures k in data {
      assert k in keys;
    }
  }

  /**
   Capacity: a secret holds at most secretMaxSize, or the three entries of one triple and nothing else; and two
   neighbouring secrets together hold more than secretMaxSize.
   */
  lemma {:induction false} PackingRespectsCapacity(max: int, data: CertsData, keys: seq<string>)
    requires AscendingListing(keys, data.Keys) && |keys| % 3 != 2
    ensures var secrets := PackKeys(max, data, keys).secrets;
      && (forall i :: 0 <= i < |secrets| ==> SecretSize(secrets[i]) <= max || HoldsOneTriple(keys, secrets[i]))
      && (forall i, j :: 0 <= i && j == i + 1 && j < |secrets| ==>
          SecretSize(secrets[i]) + SecretSize(secrets[j]) > max)
  {
    var items := Triples(keys, |keys| / 3);
    var bins := NextFit(max, data, items).bins;
    var secrets := PackKeys(max, data, keys).secrets;
    BinsListKeys(max, data, keys);
    NextFitIsGood(max, data, items);
    forall i | 0 <= i < |bins|
      ensures SecretSize(secrets[i]) == Load(data, bins[i])
      ensures |bins[i]| == 1 ==> HoldsOneTriple(keys, secrets[i])
    {
      SecretSizeIsLoad(data, bins, i);
      if |bins[i]| == 1 {
        SingleBin(keys, data, bins, i);
      }
    }
  }

  ghost predicate HoldsOneTriple(keys: seq<string>, secret: CertsData) {
    exists t :: 0 <= t && 3 * t + 2 < |keys| && secret.Keys == {keys[3 * t], keys[3 * t + 1], keys[3 * t + 2]}
  }

  lemma {:induction false} BinItemsWithin(bins: seq<seq<Triple>>, i: nat, x: Triple)
    requires i < |bins| && x in bins[i]
    ensures x in Flatten(bins)
    decreases |bins|
  {
    if i < |bins| - 1 {
      BinItemsWithin(bins[..|bins| - 1], i, x);
    }
  }

  lemma {:induction false} SingleBin(keys: seq<string>, data: CertsData, bins: seq<seq<Triple>>, i: nat)
    requires i < |bins| && |bins[i]| == 1
    requires Flatten(bins) == Triples(keys, |keys| / 3)
    requires forall k :: k in KeysOf(Flatten(bins)) ==> k in data
    ensures HoldsOneTriple(keys, Contents(data, bins[i]))
  {
    BinItemsWithin(bins, i, bins[i][0]);
    ContentsKeys(data, bins, i);
    assert bins[i] == [bins[i][0]];
  }

  /**
   The number of secrets: at most 2 * T / (max + 1) + 1 for data of total size T, and less than twice the number
   of any other secrets of at most max that hold as much.
   */
  lemma {:induction false} PackingUsesFewSecrets(max: nat, data: CertsData, keys: seq<string>, loads: seq<nat>)
    requires AscendingListing(keys, data.Keys) && |keys| % 3 != 2
    ensures var secrets := PackKeys(max, data, keys).secrets;
      var total := SizeOver(data, PackedKeys(keys));
      && (|secrets| / 2) * (max + 1) <= total
      && (total > 0 && Total(loads) == total && (forall i :: 0 <= i < |loads| ==> loads[i] <= max) ==>
        |secrets| < 2 * |loads|)
  {
    var items := Triples(keys, |keys| / 3);
    var bins := NextFit(max, data, items).bins;
    BinsListKeys(max, data, keys);
    NextFitIsGood(max, data, items);
    ListedHoldsKeys(items);
    LoadIsListedSize(data, data, items);
    PairsExceed(max, data, bins, |bins| / 2);
    if Load(data, items) > 0 && Total(loads) == Load(data, items)
      && (forall i :: 0 <= i < |loads| ==> loads[i] <= max)
    {
      NextFitIsWithinTwice(max, data, items, loads);
    }
  }
}
