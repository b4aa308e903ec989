/**
 Deduplicating the services of the nodesets of a deployment: one nodeset at a time, by name, by service type and
 by the global services already placed.
 */
module ServiceDedupe {
  datatype Lookup = Existing(serviceType: string, global: bool) | NotFound | Failed

  /** What looking a service up by name answers; it does not change during the call. */
  type Catalog = string -> Lookup

  function TypeOf(cat: Catalog, s: string): string {
    if cat(s).Existing? && cat(s).serviceType != "" then cat(s).serviceType else s
  }

  predicate IsGlobal(cat: Catalog, s: string) {
    cat(s).Existing? && cat(s).global
  }

  // ---------------------------------------------------------------- one nodeset

  datatype Deduped = Deduped(services: seq<string>, types: seq<string>, globals: seq<string>, ok: bool)

  /** The loop body. The new list of globals is built from the list the call started with, not from its own. */
  function Step(cat: Catalog, globals: seq<string>, d: Deduped, svc: string): Deduped {
    match cat(svc)
    case Failed => d.(ok := false)
    case NotFound => if svc in d.services then d.(ok := false) else d.(services := d.services + [svc])
    case Existing(_, global) =>
      var t := TypeOf(cat, svc);
      if t in d.types || svc in d.services || (global && svc in globals) then d
      else
        d.(services := d.services + [svc], types := d.types + [t],
           globals := if global then globals + [svc] else d.globals)
  }

  function Dedupe(cat: Catalog, services: seq<string>, globals: seq<string>): Deduped {
    if services == [] then Deduped([], [], globals, true)
    else
      var d := Dedupe(cat, services[..|services| - 1], globals);
      if d.ok then Step(cat, globals, d, services[|services| - 1]) else d
  }

  method DedupeNodeSet(cat: Catalog, services: seq<string>, globalServices: seq<string>)
    returns (dedupedServices: seq<string>, updatedGlobalServices: seq<string>, ok: bool)
    ensures var d := Dedupe(cat, services, globalServices);
      dedupedServices == d.services && updatedGlobalServices == d.globals && ok == d.ok
  {
    dedupedServices := [];
    updatedGlobalServices := globalServices;
    var nodeSetServiceTypes: seq<string> := [];
    for i := 0 to |services|
      invariant Dedupe(cat, services[..i], globalServices)
        == Deduped(dedupedServices, nodeSetServiceTypes, updatedGlobalServices, true)
    {
      var svc := services[i];
      assert services[..i + 1][..i] == services[..i];
      var service := cat(svc);
      if !service.Existing? {
        if service.NotFound? && svc !in dedupedServices {
          dedupedServices := dedupedServices + [svc];
          continue;
        }
        Stuck(cat, services, globalServices, i + 1);
        return dedupedServices, updatedGlobalServices, false;
      }
      var serviceType := service.serviceType;
      if serviceType == "" {
        serviceType := svc;
      }
      if serviceType !in nodeSetServiceTypes && svc !in dedupedServices {
        if service.global {
          if svc !in globalServices {
            updatedGlobalServices := globalServices + [svc];
          } else {
            continue;
          }
        }
        nodeSetServiceTypes := nodeSetServiceTypes + [serviceType];
        dedupedServices := dedupedServices + [svc];
      }
    }
    assert services[..|services|] == services;
    ok := true;
  }

  lemma {:induction false} Stuck(cat: Catalog, services: seq<string>, globals: seq<string>, n: nat)
    requires n <= |services| && !Dedupe(cat, services[..n], globals).ok
    ensures Dedupe(cat, services, globals) == Dedupe(cat, services[..n], globals)
    decreases |services|
  {
    if n == |services| {
      assert services[..n] == services;
    } else {
      var init := services[..|services| - 1];
      assert init[..n] == services[..n];
      Stuck(cat, init, globals, n);
    }
  }

  // ---------------------------------------------------------------- what is kept, without the loop

  predicate Blocked(cat: Catalog, globals: seq<string>, s: string) {
    IsGlobal(cat, s) && s in globals
  }

  /** An existing service that no earlier one beats to its type. */
  predicate Wins(cat: Catalog, globals: seq<string>, services: seq<string>, i: nat)
    requires i < |services|
  {
    && cat(services[i]).Existing?
    && !Blocked(cat, globals, services[i])
    && (forall j :: 0 <= j < i && cat(services[j]).Existing? && !Blocked(cat, globals, services[j]) ==>
      TypeOf(cat, services[j]) != TypeOf(cat, services[i]))
  }

  predicate Kept(cat: Catalog, globals: seq<string>, services: seq<string>, i: nat)
    requires i < |services|
  {
    Wins(cat, globals, services, i) || !cat(services[i]).Existing?
  }

  function Keep(cat: Catalog, globals: seq<string>, services: seq<string>, n: nat): seq<string>
    requires n <= |services|
  {
    if n == 0 then []
    else Keep(cat, globals, services, n - 1) + if Kept(cat, globals, services, n - 1) then [services[n - 1]] else []
  }

  /** No lookup fails, and no missing service is listed twice. */
  predicate Clean(cat: Catalog, services: seq<string>) {
    forall i :: 0 <= i < |services| ==>
      !cat(services[i]).Failed? && (cat(services[i]).NotFound? ==> services[i] !in services[..i])
  }

  /** The types of the winners among the first n. */
  ghost predicate TypesUpTo(cat: Catalog, globals: seq<string>, services: seq<string>, n: nat, types: seq<string>)
    requires n <= |services|
  {
    forall t :: t in types <==>
      exists j :: 0 <= j < n
        && cat(services[j]).Existing? && !Blocked(cat, globals, services[j]) && TypeOf(cat, services[j]) == t
  }

  lemma {:induction false} KeepMembers(cat: Catalog, globals: seq<string>, services: seq<string>, n: nat)
    requires n <= |services|
    ensures forall s :: (
      s in Keep(cat, globals, services, n)
      <==> exists j :: 0 <= j < n && services[j] == s && Kept(cat, globals, services, j))
  {
    if n > 0 {
      KeepMembers(cat, globals, services, n - 1);
    }
  }

  lemma {:induction false} CleanStep(cat: Catalog, services: seq<string>, n: nat)
    requires 0 < n <= |services|
    ensures Clean(cat, services[..n]) <==>
      (Clean(cat, services[..n - 1]) && !cat(services[n - 1]).Failed? &&
      (cat(services[n - 1]).NotFound? ==> services[n - 1] !in services[..n - 1]))
  {
    var a, b := services[..n], services[..n - 1];
    assert forall i :: 0 <= i < n - 1 ==> a[i] == b[i] && a[..i] == b[..i];
    assert a[..n - 1] == b;
  }

  /** A missing service is in the result so far exactly when it was listed before. */
  lemma {:induction false} MissingIsKept(cat: Catalog, services: seq<string>, globals: seq<string>, n: nat)
    requires n < |services| && cat(services[n]).NotFound?
    ensures services[n] in Keep(cat, globals, services, n) <==> services[n] in services[..n]
  {
    KeepMembers(cat, globals, services, n);
    if services[n] in services[..n] {
      var j :| 0 <= j < n && services[..n][j] == services[n];
      assert Kept(cat, globals, services, j) && services[j] == services[n];
    }
  }

  /** The conditions of the loop body amount to winning. */
  lemma {:induction false} ConditionsMeanWinning(cat: Catalog, services: seq<string>, globals: seq<string>, n: nat,
      types: seq<string>)
    requires n < |services| && cat(services[n]).Existing? && TypesUpTo(cat, globals, services, n, types)
    ensures var svc := services[n];
      (TypeOf(cat, svc) in types || svc in Keep(cat, globals, services, n) || Blocked(cat, globals, svc))
      <==> !Wins(cat, globals, services, n)
  {
    KeepMembers(cat, globals, services, n);
    var svc := services[n];
    if svc in Keep(cat, globals, services, n) {
      var j :| 0 <= j < n && services[j] == svc && Kept(cat, globals, services, j);
      assert Wins(cat, globals, services, j);
    }
  }

  lemma {:induction false} TypesStep(cat: Catalog, services: seq<string>, globals: seq<string>, n: nat,
      types: seq<string>)
    requires n < |services| && TypesUpTo(cat, globals, services, n, types)
    ensures Wins(cat, globals, services, n) ==>
      TypesUpTo(cat, globals, services, n + 1, types + [TypeOf(cat, services[n])])
    ensures !Wins(cat, globals, services, n) ==> TypesUpTo(cat, globals, services, n + 1, types)
  {
  }

  /** The loop keeps exactly the winners and the missing services, and fails exactly on lists that are not clean. */
  lemma {:induction false} DedupeKeepsWinners(cat: Catalog, services: seq<string>, globals: seq<string>, n: nat)
    requires n <= |services|
    ensures var d := Dedupe(cat, services[..n], globals);
      && (d.ok <==> Clean(cat, services[..n]))
      && (d.ok ==> d.services == Keep(cat, globals, services, n) && TypesUpTo(cat, globals, services, n, d.types))
  {
    if n > 0 {
      DedupeKeepsWinners(cat, services, globals, n - 1);
      assert services[..n][..n - 1] == services[..n - 1];
      CleanStep(cat, services, n);
      var d := Dedupe(cat, services[..n - 1], globals);
      if d.ok {
        TypesStep(cat, services, globals, n - 1, d.types);
        if cat(services[n - 1]).NotFound? {
          MissingIsKept(cat, services, globals, n - 1);
        } else if cat(services[n - 1]).Existing? {
          ConditionsMeanWinning(cat, services, globals, n - 1, d.types);
        }
      }
    }
  }

  // ---------------------------------------------------------------- properties of the result

  ghost predicate NoDuplicates(xs: seq<string>) {
    forall i, j :: 0 <= i < j < |xs| ==> xs[i] != xs[j]
  }

  ghost predicate DistinctTypes(cat: Catalog, xs: seq<string>) {
    forall i, j :: 0 <= i < j < |xs| && cat(xs[i]).Existing? && cat(xs[j]).Existing? ==>
      TypeOf(cat, xs[i]) != TypeOf(cat, xs[j])
  }

  predicate IsSubsequence(xs: seq<string>, ys: seq<string>) {
    if xs == [] then true
    else if ys == [] then false
    else IsSubsequence(if xs[|xs| - 1] == ys[|ys| - 1] then xs[..|xs| - 1] else xs, ys[..|ys| - 1])
  }

  lemma {:induction false} PartialSubsequence(xs: seq<string>, x: string, ys: seq<string>)
    requires IsSubsequence(xs + [x], ys)
    ensures IsSubsequence(xs, ys)
    decreases |ys|, 0
  {
    if ys != [] {
      assert (xs + [x])[..|xs|] == xs;
      var init := ys[..|ys| - 1];
      if x == ys[|ys| - 1] {
        SkipLast(xs, init, ys[|ys| - 1]);
        assert init + [ys[|ys| - 1]] == ys;
      } else {
        PartialSubsequence(xs, x, init);
        SkipLast(xs, init, ys[|ys| - 1]);
        assert init + [ys[|ys| - 1]] == ys;
      }
    }
  }

  lemma {:induction false} SkipLast(xs: seq<string>, ys: seq<string>, y: string)
    requires IsSubsequence(xs, ys)
    ensures IsSubsequence(xs, ys + [y])
    decreases |ys|, 1
  {
    assert (ys + [y])[..|ys|] == ys;
    if xs != [] && xs[|xs| - 1] == y {
      assert xs[..|xs| - 1] + [y] == xs;
      PartialSubsequence(xs[..|xs| - 1], y, ys);
    }
  }

  lemma {:induction false} KeepIsSubsequence(cat: Catalog, globals: seq<string>, services: seq<string>, n: nat)
    requires n <= |services|
    ensures IsSubsequence(Keep(cat, globals, services, n), services[..n])
  {
    if n > 0 {
      KeepIsSubsequence(cat, globals, services, n - 1);
      var before := Keep(cat, globals, services, n - 1);
      assert services[..n] == services[..n - 1] + [services[n - 1]];
      assert services[..n][..n - 1] == services[..n - 1];
      if Kept(cat, globals, services, n - 1) {
        assert (before + [services[n - 1]])[..|before|] == before;
      } else {
        assert Keep(cat, globals, services, n) == before;
        SkipLast(before, services[..n - 1], services[n - 1]);
      }
    }
  }

  lemma {:induction false} KeepIsDistinct(cat: Catalog, globals: seq<string>, services: seq<string>, n: nat)
    requires n <= |services| && Clean(cat, services[..n])
    ensures NoDuplicates(Keep(cat, globals, services, n)) && DistinctTypes(cat, Keep(cat, globals, services, n))
  {
    if n > 0 {
      CleanStep(cat, services, n);
      KeepIsDistinct(cat, globals, services, n - 1);
      KeepMembers(cat, globals, services, n - 1);
      var before := Keep(cat, globals, services, n - 1);
      if Kept(cat, globals, services, n - 1) {
        forall i | 0 <= i < |before|
          ensures before[i] != services[n - 1]
          ensures cat(before[i]).Existing? && cat(services[n - 1]).Existing? ==>
            TypeOf(cat, before[i]) != TypeOf(cat, services[n - 1])
        {
          assert before[i] in before;
          var j :| 0 <= j < n - 1 && services[j] == before[i] && Kept(cat, globals, services, j);
          assert services[..n - 1][j] == services[j];
        }
      }
    }
  }

  /**
   The result is a subsequence of the list without duplicates, no two existing services of it share a type, and
   whatever existing service was left out shares its type with one that was kept or was already placed globally.
   */
  lemma {:induction false} DedupeResult(cat: Catalog, services: seq<string>, globals: seq<string>)
    requires Dedupe(cat, services, globals).ok
    ensures var out := Dedupe(cat, services, globals).services;
      && IsSubsequence(out, services) && NoDuplicates(out) && DistinctTypes(cat, out)
      && (forall s :: s in services && s !in out ==> Blocked(cat, globals, s) || TypeIsKept(cat, out, s))
      && (forall s :: s in out ==> !Blocked(cat, globals, s))
  {
    var n := |services|;
    assert services[..n] == services;
    DedupeKeepsWinners(cat, services, globals, n);
    KeepIsSubsequence(cat, globals, services, n);
    KeepIsDistinct(cat, globals, services, n);
    KeepMembers(cat, globals, services, n);
    var out := Keep(cat, globals, services, n);
    forall s | s in services && s !in out && !Blocked(cat, globals, s) ensures TypeIsKept(cat, out, s) {
      var i :| 0 <= i < n && services[i] == s;
      assert !Kept(cat, globals, services, i);
      var w := FirstOfType(cat, globals, services, i);
      assert services[w] in out;
    }
  }

  ghost predicate TypeIsKept(cat: Catalog, out: seq<string>, s: string) {
    exists k :: k in out && cat(k).Existing? && TypeOf(cat, k) == TypeOf(cat, s)
  }

  /** The service that wins the type of an unblocked one. */
  lemma {:induction false} FirstOfType(cat: Catalog, globals: seq<string>, services: seq<string>,
      i: nat) returns (w: nat)
    requires i < |services| && cat(services[i]).Existing? && !Blocked(cat, globals, services[i])
    ensures w <= i && Wins(cat, globals, services, w) && TypeOf(cat, services[w]) == TypeOf(cat, services[i])
  {
    if Wins(cat, globals, services, i) {
      w := i;
    } else {
      var j :| 0 <= j < i && cat(services[j]).Existing? && !Blocked(cat, globals, services[j])
        && TypeOf(cat, services[j]) == TypeOf(cat, services[i]);
      w := FirstOfType(cat, globals, services, j);
    }
  }

  lemma {:induction false} KeepAll(cat: Catalog, globals: seq<string>, xs: seq<string>, n: nat)
    requires n <= |xs| && DistinctTypes(cat, xs) && forall s :: s in xs ==> !Blocked(cat, globals, s)
    ensures Keep(cat, globals, xs, n) == xs[..n]
  {
    if n > 0 {
      KeepAll(cat, globals, xs, n - 1);
      assert xs[n - 1] in xs;
      assert Kept(cat, globals, xs, n - 1);
      assert xs[..n] == xs[..n - 1] + [xs[n - 1]];
    }
  }

  /** Deduplicating a result again, with the same globals, changes nothing. */
  lemma {:induction false} DedupeIsIdempotent(cat: Catalog, services: seq<string>, globals: seq<string>)
    requires Dedupe(cat, services, globals).ok
    ensures var out := Dedupe(cat, services, globals).services;
      Dedupe(cat, out, globals).ok && Dedupe(cat, out, globals).services == out
  {
    DedupeResult(cat, services, globals);
    var out := Dedupe(cat, services, globals).services;
    assert services[..|services|] == services && out[..|out|] == out;
    DedupeKeepsWinners(cat, services, globals, |services|);
    KeepMembers(cat, globals, services, |services|);
    forall i | 0 <= i < |out| ensures !cat(out[i]).Failed? && out[i] !in out[..i] {
      assert out[i] in out;
      var j :| 0 <= j < |services| && services[j] == out[i];
      forall k | 0 <= k < i ensures out[..i][k] != out[i] {
        assert out[k] != out[i];
      }
    }
    DedupeKeepsWinners(cat, out, globals, |out|);
    KeepAll(cat, globals, out, |out|);
  }

  // ---------------------------------------------------------------- the result, said of the catalog

  /** Two existing services are of one type: the same one, or one whose type is the name of the other that has none. */
  ghost predicate OfOneType(cat: Catalog, a: string, b: string) {
    && cat(a).Existing? && cat(b).Existing?
    && ((cat(a).serviceType != "" && cat(a).serviceType == cat(b).serviceType)
      || (cat(a).serviceType != "" && cat(b).serviceType == "" && cat(a).serviceType == b)
      || (cat(a).serviceType == "" && cat(b).serviceType != "" && cat(b).serviceType == a)
      || (cat(a).serviceType == "" && cat(b).serviceType == "" && a == b))
  }

  ghost predicate IsFree(cat: Catalog, globals: seq<string>, s: string) {
    cat(s).Existing? && !(cat(s).global && s in globals)
  }

  /** An earlier service of the list that exists and is not placed globally is of the same type. */
  ghost predicate IsBeaten(cat: Catalog, globals: seq<string>, services: seq<string>, i: nat)
    requires i < |services|
  {
    exists j :: 0 <= j < i && IsFree(cat, globals, services[j]) && OfOneType(cat, services[j], services[i])
  }

  /**
   What of a list is placed: no two services of one type, nothing that is placed globally, everything that is missing,
   and of what is free, seen where it is listed first, exactly what no earlier free service of the same type beats.
   */
  ghost predicate Placed(cat: Catalog, globals: seq<string>, services: seq<string>, out: seq<string>) {
    && (forall i, j :: 0 <= i < j < |out| ==> out[i] != out[j] && !OfOneType(cat, out[i], out[j]))
    && (forall s :: s in out ==> s in services && (cat(s) == NotFound || IsFree(cat, globals, s)))
    && (forall s :: s in services && cat(s) == NotFound ==> s in out)
    && (forall i :: 0 <= i < |services| && services[i] !in services[..i] && IsFree(cat, globals, services[i]) ==>
      (services[i] !in out <==> IsBeaten(cat, globals, services, i)))
  }

  lemma {:induction false} TypesAgreeIff(cat: Catalog, a: string, b: string)
    requires cat(a).Existing? && cat(b).Existing?
    ensures TypeOf(cat, a) == TypeOf(cat, b) <==> OfOneType(cat, a, b)
  {
  }

  lemma {:induction false} KeptIffNotBeaten(cat: Catalog, globals: seq<string>, services: seq<string>, i: nat)
    requires i < |services| && services[i] !in services[..i] && IsFree(cat, globals, services[i])
    ensures services[i] !in Keep(cat, globals, services, |services|) <==> IsBeaten(cat, globals, services, i)
  {
    var s := services[i];
    KeepMembers(cat, globals, services, |services|);
    forall j | 0 <= j < i && IsFree(cat, globals, services[j])
      ensures TypeOf(cat, services[j]) == TypeOf(cat, s) <==> OfOneType(cat, services[j], s)
    {
      TypesAgreeIff(cat, services[j], s);
    }
    if !IsBeaten(cat, globals, services, i) {
      assert Wins(cat, globals, services, i);
    }
    forall k | 0 <= k < |services| && services[k] == s && IsBeaten(cat, globals, services, i)
      ensures !Kept(cat, globals, services, k)
    {
      NotBefore(services, i, k);
      var j :| 0 <= j < i && IsFree(cat, globals, services[j]) && OfOneType(cat, services[j], s);
    }
  }

  lemma {:induction false} NotBefore(services: seq<string>, i: nat, k: nat)
    requires i < |services| && services[i] !in services[..i]
    requires k < |services| && services[k] == services[i]
    ensures i <= k
  {
    forall j | 0 <= j < i ensures services[j] != services[i] {
      assert services[..i][j] == services[j];
    }
  }

  /** The result of one nodeset. */
  lemma {:induction false} DedupePlaces(cat: Catalog, services: seq<string>, globals: seq<string>)
    requires Dedupe(cat, services, globals).ok
    ensures Placed(cat, globals, services, Dedupe(cat, services, globals).services)
  {
    var out, n := Dedupe(cat, services, globals).services, |services|;
    assert services[..n] == services;
    DedupeKeepsWinners(cat, services, globals, n);
    DedupeResult(cat, services, globals);
    KeepMembers(cat, globals, services, n);
    forall i, j | 0 <= i < j < |out| ensures out[i] != out[j] && !OfOneType(cat, out[i], out[j]) {
      if cat(out[i]).Existing? && cat(out[j]).Existing? {
        TypesAgreeIff(cat, out[i], out[j]);
      }
    }
    forall s | s in services && cat(s) == NotFound ensures s in out {
      var j :| 0 <= j < n && services[j] == s;
      assert Kept(cat, globals, services, j);
    }
    forall i | 0 <= i < n && services[i] !in services[..i] && IsFree(cat, globals, services[i])
      ensures services[i] !in out <==> IsBeaten(cat, globals, services, i)
    {
      KeptIffNotBeaten(cat, globals, services, i);
    }
  }

  ghost predicate IsLastGlobal(cat: Catalog, out: seq<string>, i: nat)
    requires i < |out|
  {
    && cat(out[i]).Existing? && cat(out[i]).global
    && forall j :: i < j < |out| ==> !(cat(out[j]).Existing? && cat(out[j]).global)
  }

  /** The list of globals grows by the last global service that is placed, whatever other ones are placed before it. */
  ghost predicate GrowsByTheLast(cat: Catalog, out: seq<string>, before: seq<string>, after: seq<string>) {
    && ((forall s :: s in out ==> !(cat(s).Existing? && cat(s).global)) ==> after == before)
    && (forall i :: 0 <= i < |out| && IsLastGlobal(cat, out, i) ==> after == before + [out[i]])
  }

  lemma {:induction false} GrowsByOne(cat: Catalog, out: seq<string>, s: string, before: seq<string>,
      after: seq<string>)
    requires GrowsByTheLast(cat, out, before, after)
    ensures GrowsByTheLast(cat, out + [s], before,
      if cat(s).Existing? && cat(s).global then before + [s] else after)
  {
    var more := out + [s];
    assert more[|out|] == s && s in more;
    assert forall t :: t in out ==> t in more;
    assert forall i :: 0 <= i < |out| ==> more[i] == out[i];
    forall i | 0 <= i < |out| && IsLastGlobal(cat, more, i)
      ensures IsLastGlobal(cat, out, i) && !(cat(s).Existing? && cat(s).global)
    {
    }
  }

  lemma {:induction false} DedupeGrowsByTheLast(cat: Catalog, services: seq<string>, globals: seq<string>)
    ensures var d := Dedupe(cat, services, globals); GrowsByTheLast(cat, d.services, globals, d.globals)
    decreases |services|
  {
    if services != [] {
      var init, s := services[..|services| - 1], services[|services| - 1];
      DedupeGrowsByTheLast(cat, init, globals);
      var d := Dedupe(cat, init, globals);
      GrowsByOne(cat, d.services, s, globals, d.globals);
    }
  }

  /** All that one nodeset does to its list and to the globals. */
  ghost predicate PlacedAs(cat: Catalog, services: seq<string>, before: seq<string>, out: seq<string>,
      after: seq<string>) {
    && Clean(cat, services) && Placed(cat, before, services, out) && IsSubsequence(out, services)
    && GrowsByTheLast(cat, out, before, after)
  }

  lemma {:induction false} DedupePlacesAs(cat: Catalog, services: seq<string>, globals: seq<string>)
    ensures var d := Dedupe(cat, services, globals);
      && (d.ok <==> Clean(cat, services))
      && (d.ok ==> PlacedAs(cat, services, globals, d.services, d.globals))
  {
    assert services[..|services|] == services;
    DedupeKeepsWinners(cat, services, globals, |services|);
    DedupeGrowsByTheLast(cat, services, globals);
    if Dedupe(cat, services, globals).ok {
      DedupePlaces(cat, services, globals);
      DedupeResult(cat, services, globals);
    }
  }

  // ---------------------------------------------------------------- the globals of one nodeset

  /** The globals that a nodeset introduces. */
  function Introduced(cat: Catalog, globals: seq<string>, services: seq<string>, n: nat): seq<string>
    requires n <= |services|
  {
    if n == 0 then []
    else
      Introduced(cat, globals, services, n - 1) +
      if Wins(cat, globals, services, n - 1) && IsGlobal(cat, services[n - 1]) then [services[n - 1]] else []
  }

  /** However many globals a nodeset introduces, only the last one is added to the list. */
  lemma {:induction false} OnlyTheLastIsRecorded(cat: Catalog, services: seq<string>, globals: seq<string>, n: nat)
    requires n <= |services| && Dedupe(cat, services[..n], globals).ok
    ensures var news := Introduced(cat, globals, services, n);
      Dedupe(cat, services[..n], globals).globals == if news == [] then globals else globals + [news[|news| - 1]]
  {
    if n > 0 {
      assert services[..n][..n - 1] == services[..n - 1];
      var d := Dedupe(cat, services[..n - 1], globals);
      OnlyTheLastIsRecorded(cat, services, globals, n - 1);
      DedupeKeepsWinners(cat, services, globals, n - 1);
      if cat(services[n - 1]).Existing? {
        ConditionsMeanWinning(cat, services, globals, n - 1, d.types);
      }
    }
  }

  lemma {:induction false} IntroducedMembers(cat: Catalog, globals: seq<string>, services: seq<string>, n: nat)
    requires n <= |services|
    ensures forall s :: (
      s in Introduced(cat, globals, services, n)
      <==> IsGlobal(cat, s) && s in Keep(cat, globals, services, n))
  {
    if n > 0 {
      IntroducedMembers(cat, globals, services, n - 1);
    }
  }
}
