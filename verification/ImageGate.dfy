/**
 The gate of the minor update: it compares the images recorded for every enabled service with those of the version.
 */
module ImageGate {
  import opened Wrappers
  import P = ImageProtocol

  function StringPointersEqual(a: Option<string>, b: Option<string>): (r: bool)
    ensures r <==> a == b
  {
    if a.None? && b.None? then true
    else if a.None? || b.None? then false
    else a.value == b.value
  }

  function Pointer(images: P.Images, f: P.Field): Option<string> {
    if f in images then Some(images[f]) else None
  }

  /** A service of the control plane: whether it is enabled, and the fields its gate compares. */
  datatype Service = Service(name: string, enabled: bool, fields: seq<P.Field>, status: P.Images)

  predicate ImageMatch(s: Service, version: P.Images) {
    !s.enabled || forall i :: 0 <= i < |s.fields| ==>
      StringPointersEqual(Pointer(s.status, s.fields[i]), Pointer(version, s.fields[i]))
  }

  /** The names of the services that do not match, in the order of the checks. */
  function Mismatches(services: seq<Service>, version: P.Images): seq<string> {
    if services == [] then []
    else
      var last := services[|services| - 1];
      Mismatches(services[..|services| - 1], version) + if ImageMatch(last, version) then [] else [last.name]
  }

  lemma {:induction false} NoMismatch(services: seq<Service>, version: P.Images)
    ensures Mismatches(services, version) == []
      <==> forall i :: 0 <= i < |services| ==> ImageMatch(services[i], version)
    decreases |services|
  {
    if services != [] {
      var init := services[..|services| - 1];
      NoMismatch(init, version);
      assert forall i :: 0 <= i < |init| ==> init[i] == services[i];
    }
  }

  /** A field has the same image in both, or none in either. */
  ghost predicate SameImage(f: P.Field, a: P.Images, b: P.Images) {
    (f in a <==> f in b) && (f in a ==> a[f] == b[f])
  }

  /** The service is enabled, and a field that is compared for it has not the same image in both. */
  ghost predicate Differs(s: Service, version: P.Images) {
    s.enabled && exists f :: f in s.fields && !SameImage(f, s.status, version)
  }

  lemma {:induction false} MatchIffSame(s: Service, version: P.Images)
    ensures ImageMatch(s, version) <==> !Differs(s, version)
  {
    forall i | 0 <= i < |s.fields|
      ensures StringPointersEqual(Pointer(s.status, s.fields[i]), Pointer(version, s.fields[i]))
        <==> SameImage(s.fields[i], s.status, version)
    {
    }
  }

  /** The services that do not match are those that differ in a compared field. */
  lemma {:induction false} MismatchesDiffer(services: seq<Service>, version: P.Images)
    ensures forall name :: (name in Mismatches(services, version)
      <==> exists s :: s in services && s.name == name && Differs(s, version))
    decreases |services|
  {
    if services != [] {
      var init, last := services[..|services| - 1], services[|services| - 1];
      MismatchesDiffer(init, version);
      MatchIffSame(last, version);
      assert services == init + [last];
      assert forall s :: s in services <==> s in init || s == last;
      forall name
        ensures name in Mismatches(services, version)
          <==> exists s :: s in services && s.name == name && Differs(s, version)
      {
        assert name in Mismatches(services, version)
          <==> name in Mismatches(init, version) || (name == last.name && Differs(last, version));
      }
    }
  }

  /** One comparison after the other; the names of the failed ones are collected. */
  method ControlplaneContainerImageMatch(services: seq<Service>, version: P.Images) returns (ok: bool,
      failed: seq<string>)
    ensures ok <==> forall i :: 0 <= i < |services| ==> ImageMatch(services[i], version)
    ensures ok <==> forall s :: s in services ==> !Differs(s, version)
    ensures forall name :: name in failed <==> exists s :: s in services && s.name == name && Differs(s, version)
    ensures failed == Mismatches(services, version)
  {
    failed := [];
    for i := 0 to |services|
      invariant failed == Mismatches(services[..i], version)
    {
      assert services[..i + 1][..i] == services[..i];
      if !ImageMatch(services[i], version) {
        failed := failed + [services[i].name];
      }
    }
    assert services[..|services|] == services;
    NoMismatch(services, version);
    forall s | s in services
      ensures ImageMatch(s, version) <==> !Differs(s, version)
    {
      MatchIffSame(s, version);
    }
    MismatchesDiffer(services, version);
    ok := failed == [];
  }

  // ---------------------------------------------------------------- soundness

  /** The history behind a service: a run of its resource, this operator and its sub-operator. */
  datatype History = History(fields: set<P.Field>, worlds: seq<P.World>, steps: seq<P.Step>)

  /** The recorded images of the service are the ones its history, with checked generations, ends in. */
  ghost predicate Explains(h: History, s: Service) {
    && P.IsRun(h.fields, true, h.worlds, h.steps)
    && s.status == h.worlds[|h.steps|].status
  }

  /** Some generation that carried the version's image in every compared field was reported Ready. */
  ghost predicate RolledOut(h: History, s: Service, version: P.Images)
    requires Explains(h, s)
  {
    exists r :: r in h.worlds[|h.steps|].reports && Carries(r.images, s.fields, version)
  }

  predicate Carries(images: P.Images, fields: seq<P.Field>, version: P.Images) {
    forall i :: 0 <= i < |fields| ==>
      fields[i] in version && fields[i] in images && images[fields[i]] == version[fields[i]]
  }

  /**
   Gate soundness: when the gate passes, every enabled service whose recorder checks generations was reported Ready
   with all images that were compared for it, provided the version names them.
   */
  lemma {:induction false} GateIsSound(services: seq<Service>, version: P.Images, histories: seq<History>, i: nat)
    requires |histories| == |services| && i < |services|
    requires Mismatches(services, version) == []
    requires services[i].enabled && services[i].fields != []
    requires forall k :: 0 <= k < |services[i].fields| ==> services[i].fields[k] in version
    requires Explains(histories[i], services[i])
    ensures RolledOut(histories[i], services[i], version)
  {
    NoMismatch(services, version);
    var s, h := services[i], histories[i];
    assert ImageMatch(s, version);
    forall k | 0 <= k < |s.fields| ensures s.fields[k] in s.status && s.status[s.fields[k]] == version[s.fields[k]] {
      assert StringPointersEqual(Pointer(s.status, s.fields[k]), Pointer(version, s.fields[k]));
    }
    P.RecordedImagesWereReady(h.fields, h.worlds, h.steps, |h.steps|, s.fields[0]);
    var r :| r in h.worlds[|h.steps|].reports && r.images == s.status;
    assert Carries(r.images, s.fields, version);
  }

  /**
   Exactly when the gate passes for a service that has recorded nothing yet: the service is disabled, or the
   version has nil pointers in all compared fields.
   */
  lemma {:induction false} UnrecordedServicePasses(s: Service, version: P.Images)
    requires s.status == map[]
    ensures ImageMatch(s, version) <==> (!s.enabled || forall i :: 0 <= i < |s.fields| ==> s.fields[i] !in version)
  {
    if ImageMatch(s, version) && s.enabled {
      forall i | 0 <= i < |s.fields| ensures s.fields[i] !in version {
        assert StringPointersEqual(Pointer(s.status, s.fields[i]), Pointer(version, s.fields[i]));
      }
    }
  }
}
