/**
 Recording the image of the Galera instances: every instance that is found Ready records it on its own, so one is
 enough. Objects, generations and reports are those of the OVN database clusters.
 */
module GaleraImages {
  import opened Wrappers
  import O = OvnImages

  type Image = O.Image

  // ---------------------------------------------------------------- one pass

  /** What the pass gets for one instance: its certificate is not there yet, the request is refused, or the object. */
  datatype Response = NoCertificate | Refused | Returned(instance: O.Cluster)

  /** What the pass reports: nothing when Galera is disabled or the pass ended early. */
  datatype Verdict = Untouched | Ended | Failures | InProgress | Ready

  predicate IsReady(r: Response) {
    r.Returned? && O.Current(r.instance)
  }

  /** The object came back Ready, and observed at its own generation. */
  ghost predicate FoundCurrent(r: Response) {
    r.Returned? && r.instance.ready && r.instance.observedGeneration == r.instance.generation
  }

  /** The pass goes on behind this instance. */
  predicate GoesOn(r: Response, version: Option<Image>) {
    !r.NoCertificate? && version.Some?
  }

  /** The instances that the pass gets to: those up to the first without a certificate, and none when the version has a
      nil pointer for the image. */
  function Reached(responses: seq<Response>, version: Option<Image>): (n: nat)
    ensures n <= |responses|
    ensures n < |responses| ==> responses[n] == NoCertificate || version == None
    ensures forall i :: 0 <= i < n ==> responses[i] != NoCertificate && version != None
  {
    if responses == [] || !GoesOn(responses[0], version) then 0 else 1 + Reached(responses[1..], version)
  }

  lemma {:induction false} ReachedIsFirst(responses: seq<Response>, version: Option<Image>, n: nat)
    requires n <= |responses| && (n < |responses| ==> !GoesOn(responses[n], version))
    requires forall i :: 0 <= i < n ==> GoesOn(responses[i], version)
    ensures Reached(responses, version) == n
  {
  }

  /** What a pass leaves in the status. */
  function Recorded(enabled: bool, responses: seq<Response>, recorded: Option<Image>,
      version: Option<Image>): Option<Image> {
    if enabled && exists i :: 0 <= i < Reached(responses, version) && IsReady(responses[i]) then version else recorded
  }

  /** The loop over the instances. A refused one does not stop it, one without a certificate does. */
  method ReconcileGaleras(enabled: bool, responses: seq<Response>, recorded: Option<Image>, version: Option<Image>)
    returns (image: Option<Image>, verdict: Verdict)
    ensures var n := Reached(responses, version);
      && image == Recorded(enabled, responses, recorded, version)
      && image == (if enabled && exists i :: 0 <= i < n && FoundCurrent(responses[i]) then version else recorded)
      && (verdict == Untouched <==> !enabled)
      && (verdict == Ended <==> enabled && n < |responses|)
      && (verdict == Failures <==> enabled && n == |responses| && Refused in responses)
      && (verdict == Ready <==> enabled && n == |responses| && forall i :: 0 <= i < n ==> FoundCurrent(responses[i]))
  {
    image, verdict := recorded, Untouched;
    if !enabled {
      return;
    }
    var failures, inProgress := 0, 0;
    for i := 0 to |responses|
      invariant forall k :: 0 <= k < i ==> GoesOn(responses[k], version)
      invariant image == if exists k :: 0 <= k < i && IsReady(responses[k]) then version else recorded
      invariant failures > 0 <==> Refused in responses[..i]
      invariant failures == 0 && inProgress == 0 <==> forall k :: 0 <= k < i ==> IsReady(responses[k])
    {
      if responses[i].NoCertificate? || version.None? {
        ReachedIsFirst(responses, version, i);
        return image, Ended;
      }
      if responses[i].Refused? {
        failures := failures + 1;
      } else if IsReady(responses[i]) {
        image := version;
      } else {
        inProgress := inProgress + 1;
      }
    }
    ReachedIsFirst(responses, version, |responses|);
    assert responses[..|responses|] == responses;
    verdict := if failures > 0 then Failures else if inProgress > 0 then InProgress else Ready;
  }

  // ---------------------------------------------------------------- runs

  /** The instances with their history, and the image in the status. */
  datatype World = World(instances: O.World, image: Option<Image>)

  /** A pass is a run of visits; everybody else may act in between. */
  datatype Step =
    | Visit(name: O.Name, image: Image, rest: string, works: bool)
    | Observe(name: O.Name, generation: nat, ready: bool)
    | Edit(name: O.Name, spec: O.Spec)
    | Remove(name: O.Name)

  function Do(w: World, step: Step): World {
    match step
    case Visit(name, image, rest, works) =>
      if !works then w
      else
        var stored := O.Store(w.instances, name, O.Spec(image, rest));
        World(stored, if O.Current(stored.clusters[name]) then Some(image) else w.image)
    case Observe(name, g, ready) => w.(instances := O.Do(w.instances, O.Observe(name, g, ready)))
    case Edit(name, spec) => w.(instances := O.Do(w.instances, O.Edit(name, spec)))
    case Remove(name) => w.(instances := O.Do(w.instances, O.Remove(name)))
  }

  ghost predicate IsRun(worlds: seq<World>, steps: seq<Step>) {
    && |worlds| == |steps| + 1
    && O.Initial(worlds[0].instances) && worlds[0].image.None?
    && forall i, j :: 0 <= i < |steps| && j == i + 1 ==> worlds[j] == Do(worlds[i], steps[i])
  }

  lemma {:induction false} DoKeepsInv(w: World, step: Step)
    requires O.Inv(w.instances)
    ensures O.Inv(Do(w, step).instances) && O.Later(w.instances, Do(w, step).instances)
  {
    match step
    case Visit(name, image, rest, works) => O.StoreKeepsInv(w.instances, name, O.Spec(image, rest));
    case Observe(name, g, ready) => O.DoKeepsInv(w.instances, O.Observe(name, g, ready));
    case Edit(name, spec) => O.DoKeepsInv(w.instances, O.Edit(name, spec));
    case Remove(name) => O.DoKeepsInv(w.instances, O.Remove(name));
  }

  lemma {:induction false} RunKeepsInv(worlds: seq<World>, steps: seq<Step>, n: nat)
    requires IsRun(worlds, steps) && n <= |steps|
    ensures O.Inv(worlds[n].instances)
  {
    if n > 0 {
      RunKeepsInv(worlds, steps, n - 1);
      assert worlds[n] == Do(worlds[n - 1], steps[n - 1]);
      DoKeepsInv(worlds[n - 1], steps[n - 1]);
    }
  }

  // ---------------------------------------------------------------- the pass is a run of visits

  /** The first n visits of a pass that nobody disturbs. */
  function VisitAll(w: World, names: seq<O.Name>, image: Image, rest: O.Name -> string, responses: seq<Response>,
      n: nat): World
    requires n <= |names| == |responses|
  {
    if n == 0 then w
    else
      var name := names[n - 1];
      Do(VisitAll(w, names, image, rest, responses, n - 1), Visit(name, image, rest(name), !responses[n - 1].Refused?))
  }

  /** The objects returned are those that the visits store. */
  ghost predicate Answers(w: World, names: seq<O.Name>, image: Image, rest: O.Name -> string,
      responses: seq<Response>, n: nat)
    requires n <= |names| == |responses|
  {
    forall i, j :: 0 <= i && j == i + 1 && j <= n && responses[i].Returned? ==>
      var after := VisitAll(w, names, image, rest, responses, j).instances.clusters;
      names[i] in after && after[names[i]] == responses[i].instance
  }

  lemma {:induction false} VisitsRecord(w: World, names: seq<O.Name>, image: Image, rest: O.Name -> string,
      responses: seq<Response>, n: nat)
    requires n <= |names| == |responses| && Answers(w, names, image, rest, responses, n)
    requires forall i :: 0 <= i < n ==> !responses[i].NoCertificate?
    ensures VisitAll(w, names, image, rest, responses, n).image
      == if exists i :: 0 <= i < n && IsReady(responses[i]) then Some(image) else w.image
  {
    if n > 0 {
      VisitsRecord(w, names, image, rest, responses, n - 1);
    }
  }

  /** What the loop leaves in the status is what the run of its visits leaves there. */
  lemma {:induction false} PassIsARunOfVisits(w: World, names: seq<O.Name>, image: Image, rest: O.Name -> string,
      responses: seq<Response>)
    requires |names| == |responses|
    requires Answers(w, names, image, rest, responses, Reached(responses, Some(image)))
    ensures VisitAll(w, names, image, rest, responses, Reached(responses, Some(image))).image
      == Recorded(true, responses, w.image, Some(image))
  {
    VisitsRecord(w, names, image, rest, responses, Reached(responses, Some(image)));
  }

  // ---------------------------------------------------------------- safety

  /** Step i visited an instance with the image and found it Ready at its current generation, which had been reported
      with that image. */
  ghost predicate FoundReady(worlds: seq<World>, steps: seq<Step>, i: nat, image: Image)
    requires |worlds| == |steps| + 1
  {
    && i < |steps| && steps[i].Visit? && steps[i].image == image
    && var after := worlds[i + 1].instances;
       && steps[i].name in after.clusters
       && after.clusters[steps[i].name].ready
       && after.clusters[steps[i].name].observedGeneration == after.clusters[steps[i].name].generation
       && O.CurrentKey(after, steps[i].name) in after.reports
       && O.CurrentKey(after, steps[i].name) in after.specs
       && after.specs[O.CurrentKey(after, steps[i].name)] == image
  }

  /** In every reachable state, an image that is recorded was recorded at an instance that was Ready with it, at the
      generation current in that pass. */
  lemma {:induction false} RecordedImageWasReadyOnce(worlds: seq<World>, steps: seq<Step>, n: nat) returns (i: nat)
    requires IsRun(worlds, steps) && n <= |steps| && worlds[n].image.Some?
    ensures i < n && FoundReady(worlds, steps, i, worlds[n].image.value)
  {
    i := n - 1;
    var before, step := worlds[i], steps[i];
    assert worlds[n] == Do(before, step);
    RunKeepsInv(worlds, steps, n);
    if step.Visit? && step.works && O.Current(worlds[n].instances.clusters[step.name]) {
      O.CurrentIsReported(worlds[n].instances, step.name);
    } else {
      i := RecordedImageWasReadyOnce(worlds, steps, n - 1);
    }
  }

  /** No more than that: in two passes over both instances the image is recorded, although the other instance was never
      reported. */
  lemma {:induction false} OneReadyInstanceIsEnough(a: O.Name, b: O.Name, image: Image)
    returns (worlds: seq<World>, steps: seq<Step>)
    requires a != b
    ensures IsRun(worlds, steps) && VisitsOnly(steps, {a, b})
    ensures var last := worlds[|steps|];
      && last.image == Some(image)
      && b in last.instances.clusters
      && forall k :: k in last.instances.reports ==> k.name != b
  {
    steps := [Visit(a, image, "", true), Visit(b, image, "", true), Observe(a, 1, true),
              Visit(a, image, "", true), Visit(b, image, "", true)];
    var w0 := World(O.World(map[], 0, O.NO_IMAGES, None, map[], {}, None), None);
    var w1 := Do(w0, steps[0]);
    var w2 := Do(w1, steps[1]);
    var w3 := Do(w2, steps[2]);
    var w4 := Do(w3, steps[3]);
    var w5 := Do(w4, steps[4]);
    worlds := [w0, w1, w2, w3, w4, w5];
    assert w3.instances.reports == {O.Key(a, 0, 1)};
    assert w5.instances.reports == w3.instances.reports;
  }

  // ---------------------------------------------------------------- when the image holds for all instances

  ghost predicate VisitsOnly(steps: seq<Step>, names: set<O.Name>) {
    forall i :: 0 <= i < |steps| && steps[i].Visit? ==> steps[i].name in names
  }

  /** Up to world n, every one of the instances was found Ready with the image. */
  ghost predicate AllFoundReady(worlds: seq<World>, steps: seq<Step>, n: nat, names: set<O.Name>, image: Image)
    requires |worlds| == |steps| + 1
  {
    forall name :: name in names ==>
      exists i :: 0 <= i < n && FoundReady(worlds, steps, i, image) && steps[i].name == name
  }

  /** In every run over these instances, a recorded image was found Ready at all of them. */
  ghost predicate ImageHoldsForAll(names: set<O.Name>) {
    forall worlds: seq<World>, steps: seq<Step>, n: nat ::
      IsRun(worlds, steps) && VisitsOnly(steps, names) && n <= |steps| && worlds[n].image.Some? ==>
        AllFoundReady(worlds, steps, n, names, worlds[n].image.value)
  }

  lemma {:induction false} OneInstanceHolds(worlds: seq<World>, steps: seq<Step>, n: nat, names: set<O.Name>)
    requires |names| <= 1
    requires IsRun(worlds, steps) && VisitsOnly(steps, names) && n <= |steps| && worlds[n].image.Some?
    ensures AllFoundReady(worlds, steps, n, names, worlds[n].image.value)
  {
    var i := RecordedImageWasReadyOnce(worlds, steps, n);
    assert steps[i].name in names;
    forall name | name in names
      ensures name == steps[i].name
    {
      if name != steps[i].name {
        TwoMembers(names, name, steps[i].name);
      }
    }
  }

  lemma {:induction false} TwoMembers<T>(s: set<T>, a: T, b: T)
    requires a in s && b in s && a != b
    ensures |s| >= 2
  {
    assert |s| == |s - {a}| + 1;
    assert b in s - {a};
  }

  lemma {:induction false} ReportsStay(worlds: seq<World>, steps: seq<Step>, i: nat, n: nat)
    requires IsRun(worlds, steps) && i <= n <= |steps|
    ensures worlds[i].instances.reports <= worlds[n].instances.reports
    decreases n - i
  {
    if i < n {
      ReportsStay(worlds, steps, i, n - 1);
      RunKeepsInv(worlds, steps, n - 1);
      assert worlds[n] == Do(worlds[n - 1], steps[n - 1]);
      DoKeepsInv(worlds[n - 1], steps[n - 1]);
    }
  }

  /** Two instances are enough for a run that records an image which one of them never had. */
  lemma {:induction false} TwoInstancesFail(names: set<O.Name>, a: O.Name, b: O.Name)
    requires a in names && b in names && a != b
    ensures !ImageHoldsForAll(names)
  {
    var worlds, steps := OneReadyInstanceIsEnough(a, b, "image");
    var n := |steps|;
    forall i | 0 <= i < n && steps[i].name == b
      ensures !FoundReady(worlds, steps, i, "image")
    {
      ReportsStay(worlds, steps, i + 1, n);
    }
    assert !AllFoundReady(worlds, steps, n, names, "image");
  }

  /** Exactly when a recorded image says something about all instances: when there is at most one. */
  lemma {:induction false} ImageHoldsForAllIffOneInstance(names: set<O.Name>)
    ensures ImageHoldsForAll(names) <==> |names| <= 1
  {
    if |names| <= 1 {
      forall worlds: seq<World>, steps: seq<Step>, n: nat |
        IsRun(worlds, steps) && VisitsOnly(steps, names) && n <= |steps| && worlds[n].image.Some?
        ensures AllFoundReady(worlds, steps, n, names, worlds[n].image.value)
      {
        OneInstanceHolds(worlds, steps, n, names);
      }
    } else {
      var a :| a in names;
      assert |names - {a}| == |names| - 1;
      var b :| b in names - {a};
      TwoInstancesFail(names, a, b);
    }
  }
}
