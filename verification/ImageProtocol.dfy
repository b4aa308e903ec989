/**
 How a service's images get recorded in the control plane status: this operator patches the spec of one custom
 resource, the API server counts its generations, and the service's own operator reports which generation it has
 observed and whether it is Ready. The world keeps the history of specs and reports.
 */
module ImageProtocol {
  import opened Wrappers

  type Field = string
  type Image = string

  /** The images of a service by field; an absent field is a nil pointer. */
  type Images = map<Field, Image>

  datatype Spec = Spec(images: Images, rest: string)

  datatype Resource = Resource(uid: nat, generation: nat, spec: Spec, observedGeneration: nat, ready: bool)

  /** A Ready report of the sub-operator, with the images in the spec of the generation it was made for. */
  datatype Report = Report(uid: nat, generation: nat, images: Images)

  /** status holds the recorded images; specs and reports are history. */
  datatype World = World(
    cr: Option<Resource>, nextUid: nat, status: Images, specs: map<(nat, nat), Images>, reports: seq<Report>)

  /** How far a pass gets with the API server and everything else it asks for. */
  datatype Api = Fails | Works

  datatype Step =
    | Pass(enabled: bool, version: Images, rest: string, api: Api)
    | Observe(generation: nat, ready: bool)
    | Edit(spec: Spec)
    | Remove

  /** The API server stores a spec: a new object starts at generation 1, a changed spec counts up. */
  function Store(w: World, spec: Spec): (r: World)
    ensures r.cr.Some? && r.cr.value.spec == spec
  {
    if w.cr.None? then
      w.(cr := Some(Resource(w.nextUid, 1, spec, 0, false)), nextUid := w.nextUid + 1,
         specs := w.specs[(w.nextUid, 1) := spec.images])
    else if w.cr.value.spec == spec then w
    else
      var cr := w.cr.value;
      w.(cr := Some(cr.(generation := cr.generation + 1, spec := spec)), specs := w.specs[(cr.uid,
          cr.generation + 1) := spec.images])
  }

  predicate Current(cr: Resource) {
    cr.observedGeneration == cr.generation && cr.ready
  }

  /** The images of the service's fields in the version. */
  function Wanted(fields: set<Field>, version: Images): Images {
    map f | f in fields && f in version :: version[f]
  }

  /** One pass; checked tells whether it compares the generations before it records. */
  function Reconcile(fields: set<Field>, checked: bool, w: World, enabled: bool, version: Images, rest: string,
      api: Api): World {
    if !enabled then
      if api.Works? then w.(cr := None, status := w.status - fields) else w
    else if !api.Works? || !(fields <= version.Keys) then w
    else
      var stored := Store(w, Spec(Wanted(fields, version), rest));
      if (if checked then Current(stored.cr.value) else stored.cr.value.ready) then
        stored.(status := stored.status + Wanted(fields, version))
      else stored
  }

  function Next(fields: set<Field>, checked: bool, w: World, step: Step): World {
    match step
    case Pass(enabled, version, rest, api) => Reconcile(fields, checked, w, enabled, version, rest, api)
    case Observe(g, ready) =>
      if w.cr.None? || (w.cr.value.uid, g) !in w.specs then w
      else
        var cr := w.cr.value;
        var reports := if ready then w.reports + [Report(cr.uid, g, w.specs[(cr.uid, g)])] else w.reports;
        w.(cr := Some(cr.(observedGeneration := g, ready := ready)), reports := reports)
    case Edit(spec) => if w.cr.None? then w else Store(w, spec)
    case Remove => w.(cr := None)
  }

  predicate Initial(w: World) {
    w.cr.None? && w.status == map[] && w.specs == map[] && w.reports == []
  }

  ghost predicate IsRun(fields: set<Field>, checked: bool, worlds: seq<World>, steps: seq<Step>) {
    && |worlds| == |steps| + 1
    && Initial(worlds[0])
    && forall i, j :: 0 <= i < |steps| && j == i + 1 ==> worlds[j] == Next(fields, checked, worlds[i], steps[i])
  }

  // ---------------------------------------------------------------- safety

  /** Some generation that carried exactly these images was reported Ready. */
  ghost predicate Reported(w: World, images: Images) {
    exists r :: r in w.reports && r.images == images
  }

  ghost predicate Inv(w: World) {
    && (forall k :: k in w.specs ==> k.0 < w.nextUid)
    && (forall r :: r in w.reports ==> (r.uid, r.generation) in w.specs && w.specs[(r.uid, r.generation)] == r.images)
    && (w.cr.Some? ==> Tracked(w, w.cr.value))
  }

  /** The history knows the current spec and no later one, and a Ready resource was reported so. */
  ghost predicate Tracked(w: World, cr: Resource) {
    && cr.uid < w.nextUid
    && (cr.uid, cr.generation) in w.specs && w.specs[(cr.uid, cr.generation)] == cr.spec.images
    && (forall g: nat :: g > cr.generation ==> (cr.uid, g) !in w.specs)
    && (cr.ready ==> exists r :: r in w.reports && r.uid == cr.uid && r.generation == cr.observedGeneration)
  }

  ghost predicate StatusReported(w: World) {
    w.status == map[] || Reported(w, w.status)
  }

  lemma {:induction false} StoreKeepsInv(w: World, spec: Spec)
    requires Inv(w)
    ensures Inv(Store(w, spec)) && Store(w, spec).reports == w.reports && Store(w, spec).status == w.status
  {
  }

  lemma {:induction false} NextKeepsInv(fields: set<Field>, checked: bool, w: World, step: Step)
    requires Inv(w)
    ensures Inv(Next(fields, checked, w, step))
    ensures w.reports <= Next(fields, checked, w, step).reports
  {
    match step
    case Pass(enabled, version, rest, api) =>
      StoreKeepsInv(w, Spec(Wanted(fields, version), rest));
    case Observe(g, ready) =>
      if w.cr.Some? && (w.cr.value.uid, g) in w.specs && ready {
        var r := Report(w.cr.value.uid, g, w.specs[(w.cr.value.uid, g)]);
        var next := Next(fields, checked, w, step);
        assert r in next.reports;
        assert forall q :: q in next.reports <==> q in w.reports || q == r;
      }
    case Edit(spec) =>
      StoreKeepsInv(w, spec);
    case Remove =>
  }

  /** A resource whose current generation is reported Ready was reported with the images it carries. */
  lemma {:induction false} CurrentMeansReported(w: World)
    requires Inv(w) && w.cr.Some? && Current(w.cr.value)
    ensures Reported(w, w.cr.value.spec.images)
  {
    var r :| r in w.reports && r.uid == w.cr.value.uid && r.generation == w.cr.value.observedGeneration;
    assert r.images == w.cr.value.spec.images;
  }

  lemma {:induction false} StatusOverwritten(fields: set<Field>, status: Images, version: Images)
    requires status.Keys <= fields && fields <= version.Keys
    ensures status + Wanted(fields, version) == Wanted(fields, version)
    ensures status - fields == map[]
  {
  }

  lemma {:induction false} PassKeepsStatus(fields: set<Field>, w: World, step: Step)
    requires Inv(w) && StatusReported(w) && w.status.Keys <= fields
    ensures StatusReported(Next(fields, true, w, step)) && Next(fields, true, w, step).status.Keys <= fields
  {
    NextKeepsInv(fields, true, w, step);
    var next := Next(fields, true, w, step);
    if step.Pass? && step.api.Works? {
      if !step.enabled {
        assert next.status == map[];
      } else if fields <= step.version.Keys {
        var stored := Store(w, Spec(Wanted(fields, step.version), step.rest));
        StoreKeepsInv(w, Spec(Wanted(fields, step.version), step.rest));
        if Current(stored.cr.value) {
          CurrentMeansReported(stored);
          StatusOverwritten(fields, w.status, step.version);
          assert next.status == stored.cr.value.spec.images;
        }
      }
    }
    if next.status == w.status && w.status != map[] {
      var r :| r in w.reports && r.images == w.status;
      assert r in next.reports;
    }
  }

  lemma {:induction false} RunKeeps(fields: set<Field>, worlds: seq<World>, steps: seq<Step>, n: nat)
    requires IsRun(fields, true, worlds, steps) && n <= |steps|
    ensures Inv(worlds[n]) && StatusReported(worlds[n]) && worlds[n].status.Keys <= fields
  {
    if n > 0 {
      RunKeeps(fields, worlds, steps, n - 1);
      assert worlds[n] == Next(fields, true, worlds[n - 1], steps[n - 1]);
      NextKeepsInv(fields, true, worlds[n - 1], steps[n - 1]);
      PassKeepsStatus(fields, worlds[n - 1], steps[n - 1]);
    }
  }

  /**
   In every reachable state of the three parties, the images recorded in the status are, all together, the images
   of one generation that the sub-operator had reported Ready.
   */
  lemma {:induction false} RecordedImagesWereReady(fields: set<Field>, worlds: seq<World>, steps: seq<Step>, n: nat,
      f: Field)
    requires IsRun(fields, true, worlds, steps) && n <= |steps| && f in worlds[n].status
    ensures exists r :: r in worlds[n].reports && r.images == worlds[n].status && f in r.images
  {
    RunKeeps(fields, worlds, steps, n);
  }

  // ---------------------------------------------------------------- what a checked pass records

  /** The object came back Ready, and observed at its own generation. */
  ghost predicate ReadyAsPatched(w: World) {
    w.cr.Some? && w.cr.value.ready && w.cr.value.observedGeneration == w.cr.value.generation
  }

  /** Images as before, but those of the fields as the version has them. */
  ghost predicate Recorded(fields: set<Field>, version: Images, before: Images, after: Images) {
    && (forall f :: f in after <==> f in before || f in fields)
    && (forall f :: f in fields ==> f in version && after[f] == version[f])
    && (forall f :: f in before && f !in fields ==> after[f] == before[f])
  }

  /** What a pass that compares generations does to the resource and to the recorded images. */
  ghost predicate PassDoes(fields: set<Field>, w: World, enabled: bool, version: Images, rest: string, api: Api,
      next: World) {
    if api == Fails || (enabled && !(fields <= version.Keys)) then
      next == w
    else if !enabled then (
      && next.cr == None
      && (forall f :: f in next.status <==> f in w.status && f !in fields)
      && (forall f :: f in next.status ==> next.status[f] == w.status[f]))
    else (
      && next.cr.Some? && next.cr.value.spec.rest == rest
      && Recorded(fields, version, map[], next.cr.value.spec.images)
      && if ReadyAsPatched(next) then Recorded(fields, version, w.status, next.status) else next.status == w.status)
  }

  /**
   A pass that gets to patch the resource records the images of the version exactly when the object came back Ready and
   observed at its own generation; otherwise it leaves the recorded ones. A disabled one leaves neither a resource nor
   its images.
   */
  lemma {:induction false} CheckedPassRecordsIff(fields: set<Field>, w: World, enabled: bool, version: Images,
      rest: string, api: Api)
    ensures PassDoes(fields, w, enabled, version, rest, api, Next(fields, true, w, Pass(enabled, version, rest, api)))
  {
    var next := Next(fields, true, w, Pass(enabled, version, rest, api));
    if api.Works? && enabled && fields <= version.Keys {
      assert Recorded(fields, version, map[], Wanted(fields, version));
      assert next.cr.value.spec == Spec(Wanted(fields, version), rest);
    }
  }

  // ---------------------------------------------------------------- without comparing generations

  /** The spec that a pass stores. */
  function StoredBy(fields: set<Field>, w: World, step: Step): World
    requires step.Pass?
  {
    Store(w, Spec(Wanted(fields, step.version), step.rest))
  }

  /** A pass that does not compare generations gets to record: the object that comes back is Ready. */
  predicate RecordsUnchecked(fields: set<Field>, w: World, step: Step) {
    && step.Pass? && step.enabled && step.api.Works? && fields <= step.version.Keys
    && StoredBy(fields, w, step).cr.value.ready
  }

  /** The report that the Ready flag of the resource comes from. */
  ghost predicate IsFlagReport(w: World, r: Report) {
    && w.cr.Some? && w.cr.value.ready
    && r in w.reports && r.uid == w.cr.value.uid && r.generation == w.cr.value.observedGeneration
  }

  /** The images asked for are those of the generation that the sub-operator has observed. */
  predicate UnchangedSinceObserved(fields: set<Field>, w: World, version: Images)
    requires w.cr.Some?
  {
    var observed := (w.cr.value.uid, w.cr.value.observedGeneration);
    observed in w.specs && w.specs[observed] == Wanted(fields, version)
  }

  /** What the pass records was reported by the report that its Ready flag comes from. */
  ghost predicate RecordsWhatWasReported(fields: set<Field>, w: World, step: Step) {
    exists r :: IsFlagReport(w, r) && r.images == Next(fields, false, w, step).status
  }

  /** Patching neither raises the Ready flag nor changes which report it comes from. */
  lemma {:induction false} FlagSurvivesStore(fields: set<Field>, w: World, step: Step) returns (r: Report)
    requires Inv(w) && RecordsUnchecked(fields, w, step)
    ensures IsFlagReport(w, r)
  {
    assert w.cr.Some? && w.cr.value.ready;
    r :| r in w.reports && r.uid == w.cr.value.uid && r.generation == w.cr.value.observedGeneration;
  }

  /** Exactly when a recording pass that does not compare generations is right: no image changed since the generation
      that the sub-operator has observed. */
  lemma {:induction false} UncheckedPassIsRightIffUnchanged(fields: set<Field>, w: World, step: Step)
    requires Inv(w) && w.status.Keys <= fields && RecordsUnchecked(fields, w, step)
    ensures w.cr.Some? && Next(fields, false, w, step).status == Wanted(fields, step.version)
    ensures RecordsWhatWasReported(fields, w, step) <==> UnchangedSinceObserved(fields, w, step.version)
  {
    var r := FlagSurvivesStore(fields, w, step);
    StatusOverwritten(fields, w.status, step.version);
    if UnchangedSinceObserved(fields, w, step.version) {
      assert r.images == Next(fields, false, w, step).status;
    }
  }

  lemma {:induction false} UncheckedRunKeeps(fields: set<Field>, worlds: seq<World>, steps: seq<Step>, n: nat)
    requires IsRun(fields, false, worlds, steps) && n <= |steps|
    ensures Inv(worlds[n]) && worlds[n].status.Keys <= fields
  {
    if n > 0 {
      UncheckedRunKeeps(fields, worlds, steps, n - 1);
      assert worlds[n] == Next(fields, false, worlds[n - 1], steps[n - 1]);
      NextKeepsInv(fields, false, worlds[n - 1], steps[n - 1]);
    }
  }

  /** The same over every run: in every reachable state, for every pass that records there. */
  lemma {:induction false} UncheckedRunIsRightIffUnchanged(fields: set<Field>, worlds: seq<World>, steps: seq<Step>,
      n: nat)
    requires IsRun(fields, false, worlds, steps) && n < |steps| && RecordsUnchecked(fields, worlds[n], steps[n])
    ensures worlds[n].cr.Some? && worlds[n + 1].status == Wanted(fields, steps[n].version)
    ensures (exists r :: IsFlagReport(worlds[n], r) && r.images == worlds[n + 1].status)
        <==> UnchangedSinceObserved(fields, worlds[n], steps[n].version)
  {
    UncheckedRunKeeps(fields, worlds, steps, n);
    UncheckedPassIsRightIffUnchanged(fields, worlds[n], steps[n]);
    var m := n + 1;
    assert worlds[m] == Next(fields, false, worlds[n], steps[n]);
  }

  /** So a run whose recording passes all find the images unchanged records only what was reported. */
  lemma {:induction false} UnchangedRunRecordsWhatWasReported(fields: set<Field>, worlds: seq<World>,
      steps: seq<Step>, n: nat)
    requires IsRun(fields, false, worlds, steps) && n <= |steps|
    requires forall i :: 0 <= i < n && RecordsUnchecked(fields, worlds[i], steps[i]) ==>
      worlds[i].cr.Some? && UnchangedSinceObserved(fields, worlds[i], steps[i].version)
    ensures StatusReported(worlds[n])
  {
    if n > 0 {
      UnchangedRunRecordsWhatWasReported(fields, worlds, steps, n - 1);
      var w, step, next := worlds[n - 1], steps[n - 1], worlds[n];
      assert next == Next(fields, false, w, step);
      UncheckedRunKeeps(fields, worlds, steps, n - 1);
      NextKeepsInv(fields, false, w, step);
      if RecordsUnchecked(fields, w, step) {
        UncheckedPassIsRightIffUnchanged(fields, w, step);
        var r :| IsFlagReport(w, r) && r.images == next.status;
        assert r in next.reports;
      } else {
        assert next.status == map[] || next.status == w.status;
        if next.status != map[] {
          var r :| r in w.reports && r.images == w.status;
          assert r in next.reports;
        }
      }
    }
  }

  /** A pass that does not compare generations records the new image on the strength of the old report. */
  lemma {:induction false} UncheckedPassRecordsTooEarly() returns (worlds: seq<World>, steps: seq<Step>)
    ensures IsRun({"image"}, false, worlds, steps)
    ensures var last := worlds[|steps|];
      && last.status == map["image" := "new"]
      && forall r :: r in last.reports ==> r.images == map["image" := "old"]
  {
    var fields := {"image"};
    var first, second := map["image" := "old"], map["image" := "new"];
    assert Wanted(fields, first) == first && Wanted(fields, second) == second;
    steps := [Pass(true, first, "", Works), Observe(1, true), Pass(true, second, "", Works)];
    var w0 := World(None, 0, map[], map[], []);
    var w1 := Next(fields, false, w0, steps[0]);
    var w2 := Next(fields, false, w1, steps[1]);
    var w3 := Next(fields, false, w2, steps[2]);
    worlds := [w0, w1, w2, w3];
    assert w2.reports == [Report(0, 1, first)];
    assert w3.reports == w2.reports;
    assert w2.cr.value.ready && w3.cr.value.generation == 2 && w3.cr.value.observedGeneration == 1;
  }

  // ---------------------------------------------------------------- the pass as code

  class Operator {
    var cr: Option<Resource>
    var nextUid: nat
    var status: Images
    ghost var specs: map<(nat, nat), Images>
    ghost var reports: seq<Report>

    ghost function View(): World
      reads this
    {
      World(cr, nextUid, status, specs, reports)
    }

    /** CreateOrPatch: the object as the API server returns it. */
    method CreateOrPatch(spec: Spec) returns (obj: Resource)
      modifies this`cr, this`nextUid, this`specs
      ensures View() == Store(old(View()), spec) && Some(obj) == cr
    {
      if cr.None? {
        obj := Resource(nextUid, 1, spec, 0, false);
        specs := specs[(nextUid, 1) := spec.images];
        nextUid := nextUid + 1;
      } else if cr.value.spec == spec {
        obj := cr.value;
      } else {
        obj := cr.value.(generation := cr.value.generation + 1, spec := spec);
        specs := specs[(obj.uid, obj.generation) := spec.images];
      }
      cr := Some(obj);
    }

    /** The pass for KeystoneAPI, whose one image field is KeystoneAPIImage. */
    method ReconcileKeystoneAPI(enabled: bool, version: Images, rest: string, api: Api)
      modifies this
      ensures View() == Reconcile({"KeystoneAPIImage"}, true, old(View()), enabled, version, rest, api)
      ensures PassDoes({"KeystoneAPIImage"}, old(View()), enabled, version, rest, api, View())
    {
      CheckedPassRecordsIff({"KeystoneAPIImage"}, View(), enabled, version, rest, api);
      if !enabled {
        if api.Works? {
          cr := None;
          status := status - {"KeystoneAPIImage"};
        }
        return;
      }
      if !api.Works? || "KeystoneAPIImage" !in version {
        return;
      }
      var image := version["KeystoneAPIImage"];
      ghost var wanted := Wanted({"KeystoneAPIImage"}, version);
      assert wanted == map["KeystoneAPIImage" := image];
      var keystoneAPI := CreateOrPatch(Spec(map["KeystoneAPIImage" := image], rest));
      if keystoneAPI.observedGeneration == keystoneAPI.generation && keystoneAPI.ready {
        status := status["KeystoneAPIImage" := image];
      }
    }
  }
}
