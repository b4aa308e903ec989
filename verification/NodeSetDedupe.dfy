/**
 Deduplication across the nodesets of a deployment. A global service is meant to be placed on one nodeset only;
 the loop reaches that exactly as long as no nodeset introduces two of them.
 */
module NodeSetDedupe {
  import opened Wrappers
  import opened ServiceDedupe

  datatype NodeSet = NodeSet(name: string, services: seq<string>)

  /** The lists that are handed to the deduplication, one a nodeset. */
  function Requested(nodesets: seq<NodeSet>, serviceOverride: seq<string>): (lists: seq<seq<string>>)
    ensures |lists| == |nodesets|
  {
    seq(|nodesets|, i requires 0 <= i < |nodesets| =>
      if serviceOverride != [] then serviceOverride else nodesets[i].services)
  }

  /** The globals known before the i-th nodeset. */
  function GlobalsAt(cat: Catalog, lists: seq<seq<string>>, i: nat): seq<string>
    requires i <= |lists|
  {
    if i == 0 then [] else Dedupe(cat, lists[i - 1], GlobalsAt(cat, lists, i - 1)).globals
  }

  /** What the i-th nodeset keeps. */
  function KeptAt(cat: Catalog, lists: seq<seq<string>>, i: nat): seq<string>
    requires i < |lists|
  {
    Dedupe(cat, lists[i], GlobalsAt(cat, lists, i)).services
  }

  predicate OkAt(cat: Catalog, lists: seq<seq<string>>, i: nat)
    requires i < |lists|
  {
    Dedupe(cat, lists[i], GlobalsAt(cat, lists, i)).ok
  }

  predicate AllOk(cat: Catalog, lists: seq<seq<string>>, n: nat)
    requires n <= |lists|
  {
    forall i {:trigger OkAt(cat, lists, i)} :: 0 <= i < n ==> OkAt(cat, lists, i)
  }

  /** The map of the nodesets' services; of two nodesets of one name the later counts. */
  function ServiceMap(cat: Catalog, nodesets: seq<NodeSet>, lists: seq<seq<string>>, n: nat): map<string, seq<string>>
    requires |lists| == |nodesets| && n <= |nodesets|
  {
    if n == 0 then map[] else ServiceMap(cat, nodesets, lists, n - 1)[nodesets[n - 1].name := KeptAt(cat, lists, n - 1)]
  }

  // ---------------------------------------------------------------- the map, said of the catalog

  /** No nodeset up to the n-th has the name of the i-th one after it. */
  ghost predicate IsLastOfName(nodesets: seq<NodeSet>, i: int, n: nat) {
    0 <= i < n <= |nodesets| && forall j :: i < j < n ==> nodesets[j].name != nodesets[i].name
  }

  /** The map has the last of every name among the first n nodesets, with what is placed on it. */
  ghost predicate MapsTheLast(nodesets: seq<NodeSet>, kept: seq<seq<string>>, n: nat, m: map<string, seq<string>>)
    requires n <= |nodesets| == |kept|
  {
    && (forall name :: name in m ==> exists i :: 0 <= i < n && nodesets[i].name == name)
    && (forall i {:trigger IsLastOfName(nodesets, i, n)} :: IsLastOfName(nodesets, i, n) ==>
      nodesets[i].name in m && m[nodesets[i].name] == kept[i])
  }

  /** The list that a nodeset is placed with: the override if there is one. */
  ghost function ListOf(nodeset: NodeSet, serviceOverride: seq<string>): seq<string> {
    if serviceOverride == [] then nodeset.services else serviceOverride
  }

  /**
   The nodesets are placed one after the other, from no globals on: known[i] are the globals that the i-th one finds,
   and kept[i] is what is placed on it.
   */
  ghost predicate PlacedInTurn(cat: Catalog, nodesets: seq<NodeSet>, serviceOverride: seq<string>,
      known: seq<seq<string>>, kept: seq<seq<string>>) {
    && |kept| == |nodesets| && |known| == |nodesets| + 1 && known[0] == []
    && (forall i, j :: 0 <= i && j == i + 1 && j <= |nodesets| ==>
      PlacedAs(cat, ListOf(nodesets[i], serviceOverride), known[i], kept[i], known[j]))
  }

  /** The map of what is placed, the later nodeset of a name after the earlier one. */
  ghost function MapOf(nodesets: seq<NodeSet>, kept: seq<seq<string>>, n: nat): map<string, seq<string>>
    requires n <= |nodesets| == |kept|
  {
    if n == 0 then map[] else MapOf(nodesets, kept, n - 1)[nodesets[n - 1].name := kept[n - 1]]
  }

  lemma {:induction false} MapOfKept(cat: Catalog, nodesets: seq<NodeSet>, lists: seq<seq<string>>,
      kept: seq<seq<string>>, n: nat)
    requires |lists| == |nodesets| == |kept| && n <= |nodesets|
    requires forall i :: 0 <= i < |lists| ==> kept[i] == KeptAt(cat, lists, i)
    ensures ServiceMap(cat, nodesets, lists, n) == MapOf(nodesets, kept, n)
  {
    if n > 0 {
      MapOfKept(cat, nodesets, lists, kept, n - 1);
    }
  }

  lemma {:induction false} MapHasTheLast(nodesets: seq<NodeSet>, kept: seq<seq<string>>, n: nat)
    requires n <= |nodesets| == |kept|
    ensures MapsTheLast(nodesets, kept, n, MapOf(nodesets, kept, n))
  {
    if n > 0 {
      MapHasTheLast(nodesets, kept, n - 1);
      OneMoreMapped(nodesets, kept, n, MapOf(nodesets, kept, n - 1));
    }
  }

  lemma {:induction false} OneMoreMapped(nodesets: seq<NodeSet>, kept: seq<seq<string>>, n: nat,
      m: map<string, seq<string>>)
    requires 0 < n <= |nodesets| == |kept| && MapsTheLast(nodesets, kept, n - 1, m)
    ensures MapsTheLast(nodesets, kept, n, m[nodesets[n - 1].name := kept[n - 1]])
  {
    forall i | IsLastOfName(nodesets, i, n) && i < n - 1
      ensures IsLastOfName(nodesets, i, n - 1) && nodesets[n - 1].name != nodesets[i].name
    {
    }
    forall name | name in m ensures exists i :: 0 <= i < n && nodesets[i].name == name {
      var i :| 0 <= i < n - 1 && nodesets[i].name == name;
    }
    assert nodesets[n - 1].name == nodesets[n - 1].name;
  }

  /** The globals found and the services kept, one a nodeset. */
  lemma {:induction false} KnownAndKept(cat: Catalog, lists: seq<seq<string>>)
    returns (known: seq<seq<string>>, kept: seq<seq<string>>)
    ensures |known| == |lists| + 1 && forall i :: 0 <= i <= |lists| ==> known[i] == GlobalsAt(cat, lists, i)
    ensures |kept| == |lists| && forall i :: 0 <= i < |lists| ==> kept[i] == KeptAt(cat, lists, i)
  {
    known := seq(|lists| + 1, i requires 0 <= i <= |lists| => GlobalsAt(cat, lists, i));
    kept := seq(|lists|, i requires 0 <= i < |lists| => KeptAt(cat, lists, i));
  }

  lemma {:induction false} PlacedAt(cat: Catalog, lists: seq<seq<string>>, i: nat)
    requires i < |lists|
    ensures OkAt(cat, lists, i) <==> Clean(cat, lists[i])
    ensures OkAt(cat, lists, i) ==>
      PlacedAs(cat, lists[i], GlobalsAt(cat, lists, i), KeptAt(cat, lists, i), GlobalsAt(cat, lists, i + 1))
  {
    DedupePlacesAs(cat, lists[i], GlobalsAt(cat, lists, i));
  }

  lemma {:induction false} DedupeServicesPlaces(cat: Catalog, nodesets: seq<NodeSet>, serviceOverride: seq<string>)
    returns (known: seq<seq<string>>, kept: seq<seq<string>>)
    requires AllOk(cat, Requested(nodesets, serviceOverride), |nodesets|)
    ensures PlacedInTurn(cat, nodesets, serviceOverride, known, kept)
    ensures var lists := Requested(nodesets, serviceOverride);
      MapsTheLast(nodesets, kept, |nodesets|, ServiceMap(cat, nodesets, lists, |nodesets|))
  {
    var lists, n := Requested(nodesets, serviceOverride), |nodesets|;
    known, kept := KnownAndKept(cat, lists);
    MapOfKept(cat, nodesets, lists, kept, n);
    MapHasTheLast(nodesets, kept, n);
    forall i, j | 0 <= i && j == i + 1 && j <= n
      ensures PlacedAs(cat, ListOf(nodesets[i], serviceOverride), known[i], kept[i], known[j])
    {
      assert OkAt(cat, lists, i);
      PlacedAt(cat, lists, i);
    }
  }

  lemma {:induction false} AllOkIffClean(cat: Catalog, nodesets: seq<NodeSet>, serviceOverride: seq<string>)
    ensures AllOk(cat, Requested(nodesets, serviceOverride), |nodesets|)
      <==> forall i :: 0 <= i < |nodesets| ==> Clean(cat, ListOf(nodesets[i], serviceOverride))
  {
    var lists := Requested(nodesets, serviceOverride);
    forall i | 0 <= i < |nodesets|
      ensures lists[i] == ListOf(nodesets[i], serviceOverride)
      ensures OkAt(cat, lists, i) <==> Clean(cat, lists[i])
    {
      PlacedAt(cat, lists, i);
    }
    if AllOk(cat, lists, |lists|) {
      forall i | 0 <= i < |nodesets| ensures Clean(cat, ListOf(nodesets[i], serviceOverride)) {
        assert OkAt(cat, lists, i);
      }
    }
  }

  /** There is a map unless a list is not clean, and it has what is placed in turn. */
  ghost predicate Outcome(cat: Catalog, nodesets: seq<NodeSet>, serviceOverride: seq<string>,
      r: Option<map<string, seq<string>>>) {
    && (r.Some? <==> forall i :: 0 <= i < |nodesets| ==> Clean(cat, ListOf(nodesets[i], serviceOverride)))
    && (r.Some? ==> exists known, kept ::
      PlacedInTurn(cat, nodesets, serviceOverride, known, kept) && MapsTheLast(nodesets, kept, |nodesets|, r.value))
  }

  lemma {:induction false} DedupeServicesOutcome(cat: Catalog, nodesets: seq<NodeSet>, serviceOverride: seq<string>)
    ensures var lists := Requested(nodesets, serviceOverride);
      Outcome(cat, nodesets, serviceOverride,
        if AllOk(cat, lists, |lists|) then Some(ServiceMap(cat, nodesets, lists, |lists|)) else None)
  {
    AllOkIffClean(cat, nodesets, serviceOverride);
    var lists := Requested(nodesets, serviceOverride);
    if AllOk(cat, lists, |lists|) {
      var known, kept := DedupeServicesPlaces(cat, nodesets, serviceOverride);
    }
  }

  method DedupeServices(cat: Catalog, nodesets: seq<NodeSet>, serviceOverride: seq<string>)
    returns (r: Option<map<string, seq<string>>>)
    ensures var lists := Requested(nodesets, serviceOverride);
      r == if AllOk(cat, lists, |lists|) then Some(ServiceMap(cat, nodesets, lists, |lists|)) else None
    ensures Outcome(cat, nodesets, serviceOverride, r)
  {
    ghost var lists := Requested(nodesets, serviceOverride);
    var nodeSetServiceMap: map<string, seq<string>> := map[];
    var globalServices: seq<string> := [];
    for i := 0 to |nodesets|
      invariant AllOk(cat, lists, i) && globalServices == GlobalsAt(cat, lists, i)
      invariant nodeSetServiceMap == ServiceMap(cat, nodesets, lists, i)
    {
      var nodeSetServices := nodesets[i].services;
      if |serviceOverride| != 0 {
        nodeSetServices := serviceOverride;
      }
      var services, globals, ok := DedupeNodeSet(cat, nodeSetServices, globalServices);
      assert ok == OkAt(cat, lists, i);
      if !ok {
        DedupeServicesOutcome(cat, nodesets, serviceOverride);
        return None;
      }
      globalServices := globals;
      nodeSetServiceMap := nodeSetServiceMap[nodesets[i].name := services];
    }
    DedupeServicesOutcome(cat, nodesets, serviceOverride);
    r := Some(nodeSetServiceMap);
  }

  // ---------------------------------------------------------------- global services

  /** No global service is kept on two nodesets. */
  ghost predicate PlacedOnce(cat: Catalog, lists: seq<seq<string>>) {
    forall i, j, s :: 0 <= i < j < |lists| && cat(s).Existing? && cat(s).global && s in KeptAt(cat, lists, i) ==>
      s !in KeptAt(cat, lists, j)
  }

  /** The globals that the i-th nodeset introduces. */
  function IntroducedAt(cat: Catalog, lists: seq<seq<string>>, i: nat): seq<string>
    requires i < |lists|
  {
    Introduced(cat, GlobalsAt(cat, lists, i), lists[i], |lists[i]|)
  }

  lemma {:induction false} DedupeEffect(cat: Catalog, services: seq<string>, globals: seq<string>)
    requires Dedupe(cat, services, globals).ok
    ensures var d := Dedupe(cat, services, globals);
      var news := Introduced(cat, globals, services, |services|);
      && (forall s :: s in news <==> IsGlobal(cat, s) && s in d.services)
      && d.services == Keep(cat, globals, services, |services|)
      && d.globals == globals + (if news == [] then [] else [news[|news| - 1]])
      && (forall s :: s in news ==> s !in globals)
  {
    assert services[..|services|] == services;
    DedupeKeepsWinners(cat, services, globals, |services|);
    IntroducedMembers(cat, globals, services, |services|);
    OnlyTheLastIsRecorded(cat, services, globals, |services|);
    DedupeResult(cat, services, globals);
    assert globals + [] == globals;
  }

  /** Keeping, introducing and recording at one nodeset. */
  lemma {:induction false} NodeSetEffect(cat: Catalog, lists: seq<seq<string>>, i: nat)
    requires i < |lists| && AllOk(cat, lists, |lists|)
    ensures var news := IntroducedAt(cat, lists, i);
      && (forall s :: s in news <==> IsGlobal(cat, s) && s in KeptAt(cat, lists, i))
      && KeptAt(cat, lists, i) == Keep(cat, GlobalsAt(cat, lists, i), lists[i], |lists[i]|)
      && GlobalsAt(cat, lists, i + 1) == GlobalsAt(cat, lists, i) + (if news == [] then [] else [news[|news| - 1]])
      && (forall s :: s in news ==> s !in GlobalsAt(cat, lists, i))
  {
    assert OkAt(cat, lists, i);
    DedupeEffect(cat, lists[i], GlobalsAt(cat, lists, i));
  }

  lemma {:induction false} GlobalsGrow(cat: Catalog, lists: seq<seq<string>>, i: nat, j: nat)
    requires i <= j <= |lists| && AllOk(cat, lists, |lists|)
    ensures forall s :: s in GlobalsAt(cat, lists, i) ==> s in GlobalsAt(cat, lists, j)
    decreases j - i
  {
    if i < j {
      GlobalsGrow(cat, lists, i, j - 1);
      NodeSetEffect(cat, lists, j - 1);
    }
  }

  /** As long as every nodeset introduces at most one global service, none is placed twice. */
  lemma {:induction false} OneAtATimeIsPlacedOnce(cat: Catalog, lists: seq<seq<string>>)
    requires AllOk(cat, lists, |lists|)
    requires forall i :: 0 <= i < |lists| ==> |IntroducedAt(cat, lists, i)| <= 1
    ensures PlacedOnce(cat, lists)
  {
    forall i, j, s | 0 <= i < j < |lists| && cat(s).Existing? && cat(s).global && s in KeptAt(cat, lists, i)
      ensures s !in KeptAt(cat, lists, j)
    {
      assert IsGlobal(cat, s);
      NodeSetEffect(cat, lists, i);
      assert s in IntroducedAt(cat, lists, i);
      assert s == IntroducedAt(cat, lists, i)[0];
      assert s in GlobalsAt(cat, lists, i + 1);
      GlobalsGrow(cat, lists, i + 1, j);
      NodeSetEffect(cat, lists, j);
    }
  }

  /** The i-th nodeset introduces s, and another one after it, so that s is not recorded. */
  ghost predicate Forgotten(cat: Catalog, lists: seq<seq<string>>, i: nat, s: string)
    requires i < |lists|
  {
    var news := IntroducedAt(cat, lists, i);
    s in news && s != news[|news| - 1]
  }

  /** At nodeset j, s is the first of its type to be neither placed globally nor otherwise blocked. */
  ghost predicate WinsAt(cat: Catalog, lists: seq<seq<string>>, j: nat, s: string)
    requires j < |lists|
  {
    exists k :: 0 <= k < |lists[j]| && lists[j][k] == s && Wins(cat, GlobalsAt(cat, lists, j), lists[j], k)
  }

  /**
   Exactly when no global service is placed twice, whatever the lists: no global that a nodeset introduces in front of
   another one wins again on a later nodeset. Who wins there depends on what was recorded in between; the condition that
   can be read off the list alone is the one for a list shared by all nodesets, OverridePlacesOnceIffOneGlobal.
   */
  lemma {:induction false} PlacedOnceIffForgottenLose(cat: Catalog, lists: seq<seq<string>>)
    requires AllOk(cat, lists, |lists|)
    ensures PlacedOnce(cat, lists)
        <==> forall i, j, s :: 0 <= i < j < |lists| && Forgotten(cat, lists, i, s) ==> !WinsAt(cat, lists, j, s)
  {
    forall i, j, s | 0 <= i < j < |lists|
      ensures cat(s).Existing? && cat(s).global && s in KeptAt(cat, lists, i) && s in KeptAt(cat, lists, j)
          <==> Forgotten(cat, lists, i, s) && WinsAt(cat, lists, j, s)
    {
      TwiceIffForgottenWins(cat, lists, i, j, s);
    }
  }

  lemma {:induction false} TwiceIffForgottenWins(cat: Catalog, lists: seq<seq<string>>, i: nat, j: nat, s: string)
    requires AllOk(cat, lists, |lists|) && i < j < |lists|
    ensures IsGlobal(cat, s) && s in KeptAt(cat, lists, i) && s in KeptAt(cat, lists, j)
        <==> Forgotten(cat, lists, i, s) && WinsAt(cat, lists, j, s)
  {
    NodeSetEffect(cat, lists, i);
    NodeSetEffect(cat, lists, j);
    GlobalsGrow(cat, lists, i + 1, j);
    KeepMembers(cat, GlobalsAt(cat, lists, j), lists[j], |lists[j]|);
    if s in IntroducedAt(cat, lists, i) && s in IntroducedAt(cat, lists, j) {
      assert s !in GlobalsAt(cat, lists, j);
      var k :| 0 <= k < |lists[j]| && lists[j][k] == s && Kept(cat, GlobalsAt(cat, lists, j), lists[j], k);
      assert Wins(cat, GlobalsAt(cat, lists, j), lists[j], k);
    }
  }

  /** The same for the map that is returned: two nodesets of different names never both run a global service. */
  lemma {:induction false} MapPlacesOnce(cat: Catalog, nodesets: seq<NodeSet>, lists: seq<seq<string>>, a: string,
      b: string, s: string)
    requires |lists| == |nodesets| && PlacedOnce(cat, lists) && IsGlobal(cat, s) && a != b
    requires var m := ServiceMap(cat, nodesets, lists, |lists|); a in m && b in m
    ensures var m := ServiceMap(cat, nodesets, lists, |lists|); !(s in m[a] && s in m[b])
  {
    var i := MapEntry(cat, nodesets, lists, |lists|, a);
    var j := MapEntry(cat, nodesets, lists, |lists|, b);
  }

  lemma {:induction false} MapEntry(cat: Catalog, nodesets: seq<NodeSet>, lists: seq<seq<string>>, n: nat,
      name: string) returns (i: nat)
    requires |lists| == |nodesets| && n <= |nodesets| && name in ServiceMap(cat, nodesets, lists, n)
    ensures i < n && nodesets[i].name == name && ServiceMap(cat, nodesets, lists, n)[name] == KeptAt(cat, lists, i)
  {
    if nodesets[n - 1].name == name {
      i := n - 1;
    } else {
      i := MapEntry(cat, nodesets, lists, n - 1, name);
    }
  }

  // ---------------------------------------------------------------- one list for all nodesets

  ghost predicate Uniform(lists: seq<seq<string>>, list: seq<string>) {
    forall i :: 0 <= i < |lists| ==> lists[i] == list
  }

  /** A service that wins and is still not blocked when more globals are known wins again. */
  lemma {:induction false} WinsAgain(cat: Catalog, list: seq<string>, globals: seq<string>, more: seq<string>, i: nat)
    requires i < |list| && Wins(cat, globals, list, i)
    requires forall s :: s in globals ==> s in more
    requires !Blocked(cat, more, list[i])
    ensures Wins(cat, more, list, i)
  {
  }

  /** Positions of the services that a list introduces. */
  lemma {:induction false} IntroducedPosition(cat: Catalog, globals: seq<string>, list: seq<string>, n: nat,
      k: nat) returns (i: nat)
    requires n <= |list| && k < |Introduced(cat, globals, list, n)|
    ensures i < n && Wins(cat, globals, list, i) && list[i] == Introduced(cat, globals, list, n)[k]
  {
    if k == |Introduced(cat, globals, list, n - 1)| {
      i := n - 1;
    } else {
      i := IntroducedPosition(cat, globals, list, n - 1, k);
    }
  }

  lemma {:induction false} IntroducedApart(cat: Catalog, globals: seq<string>, list: seq<string>, n: nat, k: nat,
      l: nat) returns (i: nat, j: nat)
    requires n <= |list| && k < l < |Introduced(cat, globals, list, n)|
    ensures i < j < n && Wins(cat, globals, list, i) && Wins(cat, globals, list, j)
    ensures list[i] == Introduced(cat, globals, list, n)[k] && list[j] == Introduced(cat, globals, list, n)[l]
  {
    if l == |Introduced(cat, globals, list, n - 1)| {
      i := IntroducedPosition(cat, globals, list, n - 1, k);
      j := n - 1;
    } else {
      i, j := IntroducedApart(cat, globals, list, n - 1, k, l);
    }
  }

  /** Two winners of one list have different types. */
  lemma {:induction false} WinnersDiffer(cat: Catalog, globals: seq<string>, list: seq<string>, i: nat, j: nat)
    requires i < j < |list| && Wins(cat, globals, list, i) && Wins(cat, globals, list, j)
    ensures TypeOf(cat, list[i]) != TypeOf(cat, list[j])
  {
  }

  /** A winner that is the earliest of its type under fewer globals too. */
  lemma {:induction false} WonBefore(cat: Catalog, list: seq<string>, globals: seq<string>, g: string, i: nat)
    requires i < |list| && Wins(cat, globals + [g], list, i) && TypeOf(cat, list[i]) != TypeOf(cat, g)
    ensures Wins(cat, globals, list, i)
  {
    forall j | 0 <= j < i && cat(list[j]).Existing? && !Blocked(cat, globals, list[j])
      ensures TypeOf(cat, list[j]) != TypeOf(cat, list[i])
    {
      if list[j] != g {
        assert !Blocked(cat, globals + [g], list[j]);
      }
    }
  }

  /** After a round that introduced at most one global, the next round introduces at most one. */
  lemma {:induction false} StillAtMostOne(cat: Catalog, list: seq<string>, globals: seq<string>)
    requires |Introduced(cat, globals, list, |list|)| <= 1
    ensures var news := Introduced(cat, globals, list, |list|);
      |Introduced(cat, globals + news, list, |list|)| <= 1
  {
    var n := |list|;
    var news := Introduced(cat, globals, list, n);
    var next := Introduced(cat, globals + news, list, n);
    if news == [] {
      assert globals + news == globals;
    } else if |next| >= 2 {
      var g := news[0];
      assert globals + news == globals + [g];
      var i, j := IntroducedApart(cat, globals + news, list, n, 0, 1);
      IntroducedMembers(cat, globals + news, list, n);
      assert next[0] in next && next[1] in next;
      WinnersDiffer(cat, globals + news, list, i, j);
      var k := if TypeOf(cat, list[i]) != TypeOf(cat, g) then i else j;
      WonBefore(cat, list, globals, g, k);
      WinnerIsIntroduced(cat, globals, list, n, k);
    }
  }

  lemma {:induction false} WinnerIsIntroduced(cat: Catalog, globals: seq<string>, list: seq<string>, n: nat, k: nat)
    requires k < n <= |list| && Wins(cat, globals, list, k) && IsGlobal(cat, list[k])
    ensures list[k] in Introduced(cat, globals, list, n)
  {
    if k < n - 1 {
      WinnerIsIntroduced(cat, globals, list, n - 1, k);
    }
  }

  lemma {:induction false} OneIsRecorded(cat: Catalog, lists: seq<seq<string>>, i: nat)
    requires i < |lists| && AllOk(cat, lists, |lists|) && |IntroducedAt(cat, lists, i)| <= 1
    ensures GlobalsAt(cat, lists, i + 1) == GlobalsAt(cat, lists, i) + IntroducedAt(cat, lists, i)
  {
    NodeSetEffect(cat, lists, i);
    var news := IntroducedAt(cat, lists, i);
    assert news == if news == [] then [] else [news[|news| - 1]];
  }

  lemma {:induction false} UniformAtMostOne(cat: Catalog, lists: seq<seq<string>>, list: seq<string>, i: nat)
    requires Uniform(lists, list) && AllOk(cat, lists, |lists|) && i < |lists|
    requires |Introduced(cat, [], list, |list|)| <= 1
    ensures |IntroducedAt(cat, lists, i)| <= 1
  {
    if i > 0 {
      UniformAtMostOne(cat, lists, list, i - 1);
      OneIsRecorded(cat, lists, i - 1);
      StillAtMostOne(cat, list, GlobalsAt(cat, lists, i - 1));
    }
  }

  /** Of several globals that the first nodeset introduces, the second nodeset keeps the first one again. */
  lemma {:induction false} FirstOfSeveralReturns(cat: Catalog, lists: seq<seq<string>>,
      list: seq<string>) returns (s: string)
    requires Uniform(lists, list) && AllOk(cat, lists, |lists|) && |lists| >= 2
    requires |Introduced(cat, [], list, |list|)| > 1
    ensures IsGlobal(cat, s) && s in KeptAt(cat, lists, 0) && s in KeptAt(cat, lists, 1)
  {
    var n := |list|;
    var news := Introduced(cat, [], list, n);
    var i, j := IntroducedApart(cat, [], list, n, 0, |news| - 1);
    s := list[i];
    assert s in news && s in IntroducedAt(cat, lists, 0);
    NodeSetEffect(cat, lists, 0);
    var known := GlobalsAt(cat, lists, 1);
    assert known == [list[j]];
    WinnersDiffer(cat, [], list, i, j);
    WinsAgain(cat, list, [], known, i);
    WinnerIsIntroduced(cat, known, list, n, i);
    assert s in IntroducedAt(cat, lists, 1);
    NodeSetEffect(cat, lists, 1);
  }

  /**
   With a service override all nodesets get the same list. Then, with two nodesets or more, global services are
   placed once if and only if the list introduces at most one of them.
   */
  lemma {:induction false} OverridePlacesOnceIffOneGlobal(cat: Catalog, lists: seq<seq<string>>, list: seq<string>)
    requires Uniform(lists, list) && AllOk(cat, lists, |lists|) && |lists| >= 2
    ensures PlacedOnce(cat, lists) <==> |Introduced(cat, [], list, |list|)| <= 1
  {
    var n := |list|;
    var news := Introduced(cat, [], list, n);
    if |news| <= 1 {
      forall i | 0 <= i < |lists| ensures |IntroducedAt(cat, lists, i)| <= 1 {
        UniformAtMostOne(cat, lists, list, i);
      }
      OneAtATimeIsPlacedOnce(cat, lists);
    } else {
      var s := FirstOfSeveralReturns(cat, lists, list);
    }
  }

  /** Two global services on two nodesets with the same list: the first of them is placed on both. */
  lemma {:induction false} TwoGlobalsArePlacedTwice() returns (cat: Catalog, lists: seq<seq<string>>)
    ensures |lists| == 2 && AllOk(cat, lists, 2) && IsGlobal(cat, "a") && IsGlobal(cat, "b")
    ensures KeptAt(cat, lists, 0) == ["a", "b"]
    ensures KeptAt(cat, lists, 1) == ["a"]
  {
    cat := s => Existing("", true);
    var list := ["a", "b"];
    lists := [list, list];
    assert list[..1] == ["a"] && list[..1][..0] == [];
    assert Dedupe(cat, [], []) == Deduped([], [], [], true);
    assert Dedupe(cat, list[..1], []) == Deduped(["a"], ["a"], ["a"], true);
    assert Dedupe(cat, list, []) == Deduped(list, list, ["b"], true);
    var globals := ["b"];
    assert Dedupe(cat, [], globals) == Deduped([], [], globals, true);
    assert Dedupe(cat, list[..1], globals) == Deduped(["a"], ["a"], ["b", "a"], true);
    assert Dedupe(cat, list, globals).services == ["a"];
    assert GlobalsAt(cat, lists, 1) == globals;
    assert OkAt(cat, lists, 0) && OkAt(cat, lists, 1);
  }
}
