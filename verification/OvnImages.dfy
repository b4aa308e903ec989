/**
 Recording the images of the OVN database clusters: one pass goes over all clusters of the template, while the API
 server, the sub-operator and others act between any two of its requests.
 */
module OvnImages {
  import opened Wrappers
  import G = ImageGate

  type Name = string
  type Image = string

  datatype DbType = NB | SB

  datatype Spec = Spec(image: Image, rest: string)

  datatype Cluster = Cluster(uid: nat, generation: nat, spec: Spec, observedGeneration: nat, ready: bool)

  /** A generation of a cluster object. */
  datatype Key = Key(name: Name, uid: nat, generation: nat)

  /** The images a version names; None is a nil pointer. */
  datatype Version = Version(nb: Option<Image>, sb: Option<Image>, exporter: Option<Image>)

  const NO_IMAGES := Version(None, None, None)

  function ImageFor(version: Version, db: DbType): Option<Image> {
    if db.NB? then version.nb else version.sb
  }

  /** A pass under way: what is still to be visited, whether all visited clusters were ready, and, as history, the
      generation of each cluster that was current when it was visited. */
  datatype Visit = Visit(
    enabled: bool, template: map<Name, DbType>, version: Version, remaining: set<Name>, ready: bool,
    seen: map<Name, Key>)

  /** A pass that recorded its version, with the generations it saw. */
  datatype Recording = Recording(
    enabled: bool, template: map<Name, DbType>, version: Version, seen: map<Name, Key>)

  datatype World = World(
    clusters: map<Name, Cluster>, nextUid: nat, status: Version, visit: Option<Visit>,
    specs: map<Key, Image>, reports: set<Key>, recorded: Option<Recording>)

  datatype Step =
    | Begin(enabled: bool, template: map<Name, DbType>, version: Version)
    | Next(name: Name, rest: string, works: bool)
    | Finish
    | Abort
    | Observe(name: Name, generation: nat, ready: bool)
    | Edit(name: Name, spec: Spec)
    | Remove(name: Name)

  function Store(w: World, name: Name, spec: Spec): (r: World)
    ensures name in r.clusters && r.clusters[name].spec == spec
  {
    if name !in w.clusters then
      w.(clusters := w.clusters[name := Cluster(w.nextUid, 1, spec, 0, false)], nextUid := w.nextUid + 1,
         specs := w.specs[Key(name, w.nextUid, 1) := spec.image])
    else
      var c := w.clusters[name];
      if c.spec == spec then w
      else
        w.(clusters := w.clusters[name := c.(generation := c.generation + 1, spec := spec)],
           specs := w.specs[Key(name, c.uid, c.generation + 1) := spec.image])
  }

  predicate Current(c: Cluster) {
    c.observedGeneration == c.generation && c.ready
  }

  /** The generation that a cluster has now. */
  function CurrentKey(w: World, name: Name): Key
    requires name in w.clusters
  {
    Key(name, w.clusters[name].uid, w.clusters[name].generation)
  }

  /** The loop body for one cluster of the template. */
  function VisitCluster(w: World, v: Visit, name: Name, rest: string, works: bool): World
    requires name in v.template
  {
    var left := v.(remaining := v.remaining - {name});
    if !v.enabled then
      var cleared := w.(status := NO_IMAGES);
      if works then cleared.(clusters := w.clusters - {name}, visit := Some(left)) else cleared.(visit := None)
    else if !works || ImageFor(v.version, v.template[name]).None? then w.(visit := None)
    else
      var stored := Store(w, name, Spec(ImageFor(v.version, v.template[name]).value, rest));
      stored.(visit := Some(left.(
        ready := v.ready && Current(stored.clusters[name]),
        seen := v.seen[name := CurrentKey(stored, name)])))
  }

  function Do(w: World, step: Step): World {
    match step
    case Begin(enabled, template, version) =>
      if w.visit.Some? then w else 
        w.(visit := Some(Visit(enabled, template, version, template.Keys, template != map[], map[])))
    case Next(name, rest, works) =>
      if w.visit.None? || name !in w.visit.value.remaining || name !in w.visit.value.template then w
      else VisitCluster(w, w.visit.value, name, rest, works)
    case Finish =>
      if w.visit.None? || w.visit.value.remaining != {} then w
      else
        var v := w.visit.value;
        if v.ready then w.(status := v.version, recorded := Some(Recording(v.enabled, v.template, v.version, v.seen)),
            visit := None)
        else w.(visit := None)
    case Abort => w.(visit := None)
    case Observe(name, g, ready) =>
      if name !in w.clusters || Key(name, w.clusters[name].uid, g) !in w.specs then w
      else
        var c := w.clusters[name];
        w.(clusters := w.clusters[name := c.(observedGeneration := g, ready := ready)],
           reports := if ready then w.reports + {Key(name, c.uid, g)} else w.reports)
    case Edit(name, spec) => if name !in w.clusters then w else Store(w, name, spec)
    case Remove(name) => w.(clusters := w.clusters - {name})
  }

  predicate Initial(w: World) {
    && w.clusters == map[] && w.status == NO_IMAGES && w.visit.None?
    && w.specs == map[] && w.reports == {} && w.recorded.None?
  }

  ghost predicate IsRun(worlds: seq<World>, steps: seq<Step>) {
    && |worlds| == |steps| + 1
    && Initial(worlds[0])
    && forall i, j :: 0 <= i < |steps| && j == i + 1 ==> worlds[j] == Do(worlds[i], steps[i])
  }

  // ---------------------------------------------------------------- safety

  ghost predicate Tracked(w: World, name: Name)
    requires name in w.clusters
  {
    var c := w.clusters[name];
    && c.uid < w.nextUid
    && Key(name, c.uid, c.generation) in w.specs && w.specs[Key(name, c.uid, c.generation)] == c.spec.image
    && (forall g: nat :: g > c.generation ==> Key(name, c.uid, g) !in w.specs)
    && (c.ready ==> Key(name, c.uid, c.observedGeneration) in w.reports)
  }

  ghost predicate Inv(w: World) {
    && (forall k :: k in w.specs ==> k.uid < w.nextUid)
    && w.reports <= w.specs.Keys
    && (forall name :: name in w.clusters ==> Tracked(w, name))
  }

  /** The generation seen of a cluster carried the image and was reported Ready. */
  ghost predicate Reported(w: World, name: Name, seen: map<Name, Key>, image: Option<Image>) {
    && name in seen && seen[name].name == name
    && seen[name] in w.reports && seen[name] in w.specs && Some(w.specs[seen[name]]) == image
  }

  /** Of every cluster of the template outside remaining, the generation seen carried its image of the version and was
      reported Ready, and no other cluster was seen. */
  ghost predicate AllReported(w: World, template: map<Name, DbType>, version: Version, seen: map<Name, Key>,
      remaining: set<Name>)
  {
    && (forall name :: name in template && name !in remaining ==>
        Reported(w, name, seen, if template[name] == NB then version.nb else version.sb))
    && seen.Keys <= template.Keys
  }

  ghost predicate VisitBacked(w: World) {
    w.visit.Some? && w.visit.value.enabled && w.visit.value.ready ==>
      var v := w.visit.value; AllReported(w, v.template, v.version, v.seen, v.remaining)
  }

  /** The status is empty or what the last recording pass wrote, and a pass with OVN disabled sees no generation. */
  ghost predicate StatusRecorded(w: World) {
    && (w.status == NO_IMAGES || (w.recorded.Some? && w.status == w.recorded.value.version))
    && (w.recorded.Some? ==> w.recorded.value.template != map[])
    && (w.recorded.Some? && !w.recorded.value.enabled ==> w.recorded.value.seen == map[])
    && (w.visit.Some? && w.visit.value.ready ==> w.visit.value.template != map[])
    && (w.visit.Some? && !w.visit.value.enabled ==> w.visit.value.seen == map[])
  }

  ghost predicate RecordingBacked(w: World) {
    w.recorded.Some? && w.recorded.value.enabled ==>
      var r := w.recorded.value; AllReported(w, r.template, r.version, r.seen, {})
  }

  /** History only grows. */
  ghost predicate Later(w: World, next: World) {
    && w.reports <= next.reports
    && forall k :: k in w.specs ==> k in next.specs && next.specs[k] == w.specs[k]
  }

  lemma {:induction false} StoreKeepsInv(w: World, name: Name, spec: Spec)
    requires Inv(w)
    ensures Inv(Store(w, name, spec)) && Later(w, Store(w, name, spec))
    ensures Store(w, name, spec).reports == w.reports
  {
    var r := Store(w, name, spec);
    forall n | n in r.clusters ensures Tracked(r, n) {
      if n in w.clusters {
        assert Tracked(w, n);
      }
    }
  }

  lemma {:induction false} ObserveKeepsInv(w: World, name: Name, g: nat, ready: bool)
    requires Inv(w)
    ensures Inv(Do(w, Observe(name, g, ready))) && Later(w, Do(w, Observe(name, g, ready)))
  {
    var r := Do(w, Observe(name, g, ready));
    forall n | n in r.clusters ensures Tracked(r, n) {
      assert Tracked(w, n);
    }
  }

  /** Status and visit do not matter for the tracking, and clusters may go. */
  ghost predicate SameHistory(w: World, r: World) {
    && r.specs == w.specs && r.reports == w.reports && r.nextUid == w.nextUid
    && (forall n :: n in r.clusters ==> n in w.clusters && r.clusters[n] == w.clusters[n])
  }

  lemma {:induction false} SameTracking(w: World, r: World)
    requires Inv(w) && SameHistory(w, r)
    ensures Inv(r)
  {
    forall n | n in r.clusters ensures Tracked(r, n) {
      assert Tracked(w, n);
    }
  }

  lemma {:induction false} VisitKeepsInv(w: World, v: Visit, name: Name, rest: string, works: bool)
    requires Inv(w) && name in v.template
    ensures Inv(VisitCluster(w, v, name, rest, works)) && Later(w, VisitCluster(w, v, name, rest, works))
  {
    var r := VisitCluster(w, v, name, rest, works);
    var image := ImageFor(v.version, v.template[name]);
    if !v.enabled || !works || image.None? {
      SameTracking(w, r);
    } else {
      StoreKeepsInv(w, name, Spec(image.value, rest));
      SameTracking(Store(w, name, Spec(image.value, rest)), r);
    }
  }

  lemma {:induction false} DoKeepsInv(w: World, step: Step)
    requires Inv(w)
    ensures Inv(Do(w, step)) && Later(w, Do(w, step))
  {
    match step
    case Observe(name, g, ready) => ObserveKeepsInv(w, name, g, ready);
    case Edit(name, spec) => StoreKeepsInv(w, name, spec);
    case Next(name, rest, works) =>
      if w.visit.Some? && name in w.visit.value.template {
        VisitKeepsInv(w, w.visit.value, name, rest, works);
      }
    case _ => SameTracking(w, Do(w, step));
  }

  lemma {:induction false} AllReportedStays(w: World, next: World, template: map<Name, DbType>, version: Version,
      seen: map<Name, Key>, remaining: set<Name>)
    requires Later(w, next) && AllReported(w, template, version, seen, remaining)
    ensures AllReported(next, template, version, seen, remaining)
  {
    forall name | name in template && name !in remaining
      ensures Reported(next, name, seen, ImageFor(version, template[name]))
    {
      assert Reported(w, name, seen, ImageFor(version, template[name]));
    }
  }

  /** A cluster whose current generation is observed and Ready was reported so, with the image it carries. */
  lemma {:induction false} CurrentIsReported(w: World, name: Name)
    requires Inv(w) && name in w.clusters && Current(w.clusters[name])
    ensures CurrentKey(w, name) in w.reports && CurrentKey(w, name) in w.specs
    ensures w.specs[CurrentKey(w, name)] == w.clusters[name].spec.image
  {
    assert Tracked(w, name);
  }

  /** The visit of one more cluster. */
  lemma {:induction false} OneMoreIsReported(w: World, v: Visit, name: Name, rest: string)
    requires Inv(w) && w.visit == Some(v) && v.enabled
    requires name in v.template && ImageFor(v.version, v.template[name]).Some?
    requires v.ready ==> AllReported(w, v.template, v.version, v.seen, v.remaining)
    ensures var next := VisitCluster(w, v, name, rest, true);
      var after := next.visit.value;
      && Inv(next)
      && (after.ready ==> AllReported(next, v.template, v.version, after.seen, after.remaining))
  {
    var next := VisitCluster(w, v, name, rest, true);
    var after := next.visit.value;
    VisitKeepsInv(w, v, name, rest, true);
    if after.ready {
      CurrentIsReported(next, name);
      forall n | n in v.template && n !in after.remaining
        ensures Reported(next, n, after.seen, ImageFor(v.version, v.template[n]))
      {
        if n != name {
          assert Reported(w, n, v.seen, ImageFor(v.version, v.template[n]));
        }
      }
    }
  }

  lemma {:induction false} VisitStaysBacked(w: World, step: Step)
    requires Inv(w) && VisitBacked(w)
    ensures VisitBacked(Do(w, step))
  {
    var next := Do(w, step);
    DoKeepsInv(w, step);
    if next.visit.Some? && next.visit.value.enabled && next.visit.value.ready {
      var v := next.visit.value;
      if w.visit.None? {
        assert AllReported(next, v.template, v.version, v.seen, v.remaining);
      } else if next.visit == w.visit {
        AllReportedStays(w, next, v.template, v.version, v.seen, v.remaining);
      } else {
        OneMoreIsReported(w, w.visit.value, step.name, step.rest);
      }
    }
  }

  lemma {:induction false} StatusStaysRecorded(w: World, step: Step)
    requires StatusRecorded(w)
    ensures StatusRecorded(Do(w, step))
  {
  }

  lemma {:induction false} RecordingStaysBacked(w: World, step: Step)
    requires Inv(w) && VisitBacked(w) && RecordingBacked(w)
    ensures RecordingBacked(Do(w, step))
  {
    var next := Do(w, step);
    DoKeepsInv(w, step);
    if next.recorded.Some? && next.recorded.value.enabled {
      var r := next.recorded.value;
      assert AllReported(w, r.template, r.version, r.seen, {});
      AllReportedStays(w, next, r.template, r.version, r.seen, {});
    }
  }

  lemma {:induction false} RunKeeps(worlds: seq<World>, steps: seq<Step>, n: nat)
    requires IsRun(worlds, steps) && n <= |steps|
    ensures Inv(worlds[n]) && VisitBacked(worlds[n]) && StatusRecorded(worlds[n]) && RecordingBacked(worlds[n])
  {
    if n > 0 {
      RunKeeps(worlds, steps, n - 1);
      assert worlds[n] == Do(worlds[n - 1], steps[n - 1]);
      DoKeepsInv(worlds[n - 1], steps[n - 1]);
      VisitStaysBacked(worlds[n - 1], steps[n - 1]);
      StatusStaysRecorded(worlds[n - 1], steps[n - 1]);
      RecordingStaysBacked(worlds[n - 1], steps[n - 1]);
    }
  }

  // ---------------------------------------------------------------- the gate

  predicate DbClusterImageMatch(enabled: bool, status: Version, version: Version): (same: bool)
    ensures same <==> (enabled ==> status.nb == version.nb && status.sb == version.sb)
  {
    !enabled || (G.StringPointersEqual(status.nb, version.nb) && G.StringPointersEqual(status.sb, version.sb))
  }

  // ---------------------------------------------------------------- one pass

  /** The cluster is Ready and observed at its own generation, which is key. */
  ghost predicate ReadyAt(c: Cluster, name: Name, key: Key) {
    c.ready && c.observedGeneration == c.generation && key == Key(name, c.uid, c.generation)
  }

  /** Step i visited the cluster in the pass that is still under way at world m, and found it Ready at its own
      generation, which was key. */
  ghost predicate VisitedAt(worlds: seq<World>, steps: seq<Step>, i: nat, m: nat, name: Name, key: Key)
    requires |worlds| == |steps| + 1
  {
    && i < m < |worlds|
    && steps[i].Next? && steps[i].name == name
    && name in worlds[i + 1].clusters
    && ReadyAt(worlds[i + 1].clusters[name], name, key)
    && (forall j :: i <= j <= m ==> worlds[j].visit.Some?)
  }

  ghost predicate WasVisited(worlds: seq<World>, steps: seq<Step>, m: nat, name: Name, key: Key)
    requires |worlds| == |steps| + 1
  {
    exists i: nat :: VisitedAt(worlds, steps, i, m, name, key)
  }

  lemma {:induction false} VisitedStays(worlds: seq<World>, steps: seq<Step>, m: nat, name: Name, key: Key)
    requires |worlds| == |steps| + 1 && m + 1 < |worlds| && worlds[m + 1].visit.Some?
    requires WasVisited(worlds, steps, m, name, key)
    ensures WasVisited(worlds, steps, m + 1, name, key)
  {
    var i: nat :| VisitedAt(worlds, steps, i, m, name, key);
    assert VisitedAt(worlds, steps, i, m + 1, name, key);
  }

  /** Every cluster that the pass is through with was visited by it, Ready at the generation it saw. */
  ghost predicate PassVisited(worlds: seq<World>, steps: seq<Step>, n: nat)
    requires |worlds| == |steps| + 1 && n < |worlds|
  {
    worlds[n].visit.Some? && worlds[n].visit.value.enabled && worlds[n].visit.value.ready ==>
      var v := worlds[n].visit.value;
      && v.remaining <= v.template.Keys && v.seen.Keys == v.template.Keys - v.remaining
      && forall name :: name in v.seen ==> WasVisited(worlds, steps, n, name, v.seen[name])
  }

  lemma {:induction false} PassVisitedNext(worlds: seq<World>, steps: seq<Step>, n: nat)
    requires IsRun(worlds, steps) && n < |steps| && PassVisited(worlds, steps, n)
    ensures PassVisited(worlds, steps, n + 1)
  {
    var m := n + 1;
    var w, step, next := worlds[n], steps[n], worlds[m];
    assert next == Do(w, step);
    if next.visit.Some? && next.visit.value.enabled && next.visit.value.ready && w.visit.Some? {
      var v, after := w.visit.value, next.visit.value;
      forall name | name in after.seen
        ensures WasVisited(worlds, steps, m, name, after.seen[name])
      {
        if next.visit != w.visit && name == step.name {
          assert VisitedAt(worlds, steps, n, m, name, after.seen[name]);
        } else {
          VisitedStays(worlds, steps, n, name, v.seen[name]);
        }
      }
    }
  }

  lemma {:induction false} RunVisits(worlds: seq<World>, steps: seq<Step>, n: nat)
    requires IsRun(worlds, steps) && n <= |steps|
    ensures PassVisited(worlds, steps, n)
  {
    if n > 0 {
      RunVisits(worlds, steps, n - 1);
      PassVisitedNext(worlds, steps, n - 1);
    }
  }

  /** The recording was made by the pass that ended at step m; the pass saw all clusters of its template Ready, each at
      the generation that was current when this very pass visited it. */
  ghost predicate RecordedByOnePass(worlds: seq<World>, steps: seq<Step>, m: nat, r: Recording)
    requires |worlds| == |steps| + 1
  {
    && m < |steps| && steps[m].Finish? && worlds[m].visit.Some?
    && worlds[m].visit.value.template == r.template && worlds[m].visit.value.version == r.version
    && r.seen.Keys == r.template.Keys
    && forall name :: name in r.template ==> WasVisited(worlds, steps, m, name, r.seen[name])
  }

  lemma {:induction false} RecordingHasItsPass(worlds: seq<World>, steps: seq<Step>, n: nat) returns (m: nat)
    requires IsRun(worlds, steps) && n <= |steps| && worlds[n].recorded.Some? && worlds[n].recorded.value.enabled
    ensures m < n && RecordedByOnePass(worlds, steps, m, worlds[n].recorded.value)
  {
    m := n - 1;
    assert worlds[n] == Do(worlds[m], steps[m]);
    if worlds[m].recorded == worlds[n].recorded {
      m := RecordingHasItsPass(worlds, steps, n - 1);
    } else {
      RunVisits(worlds, steps, m);
    }
  }

  /**
   When the gate passes on a version that names the images, they were recorded by one pass. Exactly when OVN was enabled
   in it, this pass found every cluster of its template Ready at the generation that was current when it visited the
   cluster, and that very generation was reported Ready with its image of the version.
   */
  lemma {:induction false} MatchMeansReported(worlds: seq<World>, steps: seq<Step>, n: nat, version: Version)
    requires IsRun(worlds, steps) && n <= |steps|
    requires DbClusterImageMatch(true, worlds[n].status, version) && (version.nb.Some? || version.sb.Some?)
    ensures worlds[n].recorded.Some? && worlds[n].recorded.value.template != map[]
    ensures worlds[n].recorded.value.version.nb == version.nb && worlds[n].recorded.value.version.sb == version.sb
    ensures var r := worlds[n].recorded.value;
      r.enabled <==>
        && r.seen.Keys == r.template.Keys
        && AllReported(worlds[n], r.template, version, r.seen, {})
        && exists m :: 0 <= m < n && RecordedByOnePass(worlds, steps, m, r)
  {
    RunKeeps(worlds, steps, n);
    var r := worlds[n].recorded.value;
    if r.enabled {
      var m := RecordingHasItsPass(worlds, steps, n);
      forall name | name in r.template
        ensures Reported(worlds[n], name, r.seen, ImageFor(version, r.template[name]))
      {
        assert Reported(worlds[n], name, r.seen, ImageFor(r.version, r.template[name]));
      }
    }
  }

  /** The world after an undisturbed pass with OVN disabled. */
  function DisabledPass(w: World, template: map<Name, DbType>, version: Version, order: seq<Name>): World {
    Do(VisitAll(Do(w, Begin(false, template, version)), order), Finish)
  }

  function VisitAll(w: World, order: seq<Name>): World {
    if order == [] then w else Do(VisitAll(w, order[..|order| - 1]), Next(order[|order| - 1], "", true))
  }

  ghost predicate Lists(order: seq<Name>, names: set<Name>) {
    && (forall name :: name in order <==> name in names)
    && (forall i, j :: 0 <= i < j < |order| ==> order[i] != order[j])
  }

  ghost function Elements(names: seq<Name>): set<Name> {
    set name | name in names
  }

  lemma {:induction false} DisabledVisit(w: World, v: Visit, name: Name)
    requires w.visit == Some(v) && !v.enabled && name in v.remaining && name in v.template
    ensures var r := Do(w, Next(name, "", true));
      && r.visit == Some(v.(remaining := v.remaining - {name})) && r.status == NO_IMAGES
      && r.recorded == w.recorded && r.reports == w.reports
  {
  }

  lemma {:induction false} DisabledVisits(w: World, template: map<Name, DbType>, version: Version, order: seq<Name>,
      n: nat)
    requires w.visit.None? && Lists(order, template.Keys) && n <= |order|
    ensures var r := VisitAll(Do(w, Begin(false, template, version)), order[..n]);
      && r.visit
        == Some(Visit(false, template, version, template.Keys - Elements(order[..n]), template != map[], map[]))
      && r.recorded == w.recorded && r.reports == w.reports
      && r.status == if n == 0 then w.status else NO_IMAGES
  {
    if n == 0 {
      assert Elements(order[..0]) == {} && template.Keys - {} == template.Keys;
    } else {
      var name, before := order[n - 1], VisitAll(Do(w, Begin(false, template, version)), order[..n - 1]);
      DisabledVisits(w, template, version, order, n - 1);
      assert order[..n][..n - 1] == order[..n - 1];
      assert name in order && name !in Elements(order[..n - 1]);
      DisabledVisit(before, before.visit.value, name);
      assert order[..n] == order[..n - 1] + [name];
      assert Elements(order[..n]) == Elements(order[..n - 1]) + {name};
      assert template.Keys - Elements(order[..n]) == template.Keys - Elements(order[..n - 1]) - {name};
    }
  }

  /**
   An undisturbed pass with OVN disabled records the version all the same, exactly when the template names a
   cluster.
   */
  lemma {:induction false} DisabledPassRecordsIffTemplate(w: World, template: map<Name, DbType>, version: Version,
      order: seq<Name>)
    requires w.visit.None? && Lists(order, template.Keys)
    ensures var r := DisabledPass(w, template, version, order);
      && r.visit.None? && r.reports == w.reports
      && (template != map[] ==> r.status == version && r.recorded == Some(Recording(false, template, version, map[])))
      && (template == map[] ==> r.status == w.status && r.recorded == w.recorded)
  {
    var n := |order|;
    assert order[..n] == order;
    DisabledVisits(w, template, version, order, n);
    assert template.Keys <= Elements(order);
  }

  /**
   So the gate may pass without any cluster ever having been reported Ready: OVN is enabled after a pass that saw
   it disabled.
   */
  lemma {:induction false} MatchWithoutAnyReport() returns (worlds: seq<World>, steps: seq<Step>, version: Version)
    ensures IsRun(worlds, steps) && version.nb.Some? && version.sb.Some?
    ensures DbClusterImageMatch(true, worlds[|steps|].status, version)
    ensures worlds[|steps|].reports == {}
  {
    version := Version(Some("nb"), Some("sb"), Some("exporter"));
    var template := map["ovndbcluster-nb" := NB];
    var w0 := World(map[], 0, NO_IMAGES, None, map[], {}, None);
    steps := [Begin(false, template, version), Next("ovndbcluster-nb", "", true), Finish];
    var w1 := Do(w0, steps[0]);
    var w2 := Do(w1, steps[1]);
    var w3 := Do(w2, steps[2]);
    assert w2.visit.value.remaining == {};
    worlds := [w0, w1, w2, w3];
  }

  // ---------------------------------------------------------------- the pass as code

  /** The object that a request for a cluster returns; None stands for every early return of the pass at this
      cluster, be it an error or a certificate that is not issued yet. */
  type Responses = Name -> Option<Cluster>

  predicate FailsAt(enabled: bool, template: map<Name, DbType>, version: Version, responses: Responses, name: Name) {
    responses(name).None? || (enabled && name in template && ImageFor(version, template[name]).None?)
  }

  /** The first n requests went through. */
  predicate NoneFails(enabled: bool, template: map<Name, DbType>, order: seq<Name>, version: Version,
      responses: Responses, n: nat)
    requires n <= |order|
  {
    forall i :: 0 <= i < n ==> !FailsAt(enabled, template, version, responses, order[i])
  }

  /** The first n objects were Ready at their own generation; with OVN disabled nobody asks. */
  predicate AllCurrent(enabled: bool, order: seq<Name>, responses: Responses, n: nat)
    requires n <= |order| && forall i :: 0 <= i < n ==> responses(order[i]).Some?
  {
    enabled ==> forall i :: 0 <= i < n ==> Current(responses(order[i]).value)
  }

  /** The status that a pass leaves. */
  function StatusAfter(enabled: bool, template: map<Name, DbType>, order: seq<Name>, version: Version,
      responses: Responses, before: Version): Version
  {
    if order != [] && NoneFails(enabled, template, order, version, responses, |order|)
      && AllCurrent(enabled, order, responses, |order|)
    then version
    else if !enabled && order != [] then NO_IMAGES
    else before
  }

  // ---------------------------------------------------------------- the pass as steps

  /** The first n visits of a pass that nobody disturbs. */
  function Visits(w: World, enabled: bool, template: map<Name, DbType>, version: Version, order: seq<Name>,
      rest: Name -> string, works: Name -> bool, n: nat): World
    requires n <= |order|
  {
    if n == 0 then Do(w, Begin(enabled, template, version))
    else
      var name := order[n - 1];
      Do(Visits(w, enabled, template, version, order, rest, works, n - 1), Next(name, rest(name), works(name)))
  }

  /** The n-th request works if an object is returned, with OVN enabled the one that the visit stored. */
  ghost predicate Answer(w: World, enabled: bool, template: map<Name, DbType>, version: Version, order: seq<Name>,
      rest: Name -> string, works: Name -> bool, responses: Responses, n: nat)
    requires 0 < n <= |order|
  {
    var name, after := order[n - 1], Visits(w, enabled, template, version, order, rest, works, n);
    && responses(name).Some? == works(name)
    && (enabled && after.visit.Some? ==> name in after.clusters && responses(name) == Some(after.clusters[name]))
  }

  ghost predicate Answers(w: World, enabled: bool, template: map<Name, DbType>, version: Version, order: seq<Name>,
      rest: Name -> string, works: Name -> bool, responses: Responses)
  {
    forall n :: 0 < n <= |order| ==> Answer(w, enabled, template, version, order, rest, works, responses, n)
  }

  /** Where the pass stands after n visits. */
  ghost predicate StandsAt(w: World, enabled: bool, template: map<Name, DbType>, version: Version, order: seq<Name>,
      responses: Responses, n: nat, r: World)
    requires n <= |order|
  {
    && r.status == (if !enabled && n > 0 then NO_IMAGES else w.status)
    && (r.visit.Some? <==> NoneFails(enabled, template, order, version, responses, n))
    && (r.visit.Some? ==>
      var v := r.visit.value;
      && v.enabled == enabled && v.template == template && v.version == version
      && v.remaining == template.Keys - Elements(order[..n])
      && (v.ready <==> order != [] && AllCurrent(enabled, order, responses, n)))
  }

  /** One visit that is due: what it leaves, by what the request for the cluster returns. */
  lemma {:induction false} OneVisit(w: World, v: Visit, name: Name, rest: string, works: bool)
    requires w.visit == Some(v) && name in v.remaining && name in v.template
    ensures var r := Do(w, Next(name, rest, works));
      && r.status == (if v.enabled then w.status else NO_IMAGES)
      && (r.visit.Some? <==> works && (v.enabled ==> ImageFor(v.version, v.template[name]).Some?))
      && (r.visit.Some? ==>
        var after := r.visit.value;
        && after.enabled == v.enabled && after.template == v.template && after.version == v.version
        && after.remaining == v.remaining - {name}
        && (v.enabled ==> name in r.clusters)
        && (after.ready <==> v.ready && (v.enabled ==> Current(r.clusters[name]))))
  {
  }

  lemma {:induction false} StandsAtBegin(w: World, enabled: bool, template: map<Name, DbType>, version: Version,
      order: seq<Name>, responses: Responses)
    requires w.visit.None? && Lists(order, template.Keys)
    ensures StandsAt(w, enabled, template, version, order, responses, 0, Do(w, Begin(enabled, template, version)))
  {
    assert Elements(order[..0]) == {} && template.Keys - {} == template.Keys;
    if template != map[] {
      var name :| name in template;
      assert name in order;
    }
    if order != [] {
      assert order[0] in order;
    }
  }

  /** The names still to be visited, one visit later. */
  lemma {:induction false} OneLessRemains(template: map<Name, DbType>, order: seq<Name>, n: nat)
    requires Lists(order, template.Keys) && 0 < n <= |order|
    ensures order[n - 1] in template && order[n - 1] in template.Keys - Elements(order[..n - 1])
    ensures template.Keys - Elements(order[..n]) == template.Keys - Elements(order[..n - 1]) - {order[n - 1]}
  {
    assert order[n - 1] in order && order[n - 1] !in Elements(order[..n - 1]);
    assert order[..n] == order[..n - 1] + [order[n - 1]];
    assert Elements(order[..n]) == Elements(order[..n - 1]) + {order[n - 1]};
  }

  lemma {:induction false} StandsAtNext(w: World, enabled: bool, template: map<Name, DbType>, version: Version,
      order: seq<Name>, rest: string, works: bool, responses: Responses, n: nat, before: World)
    requires Lists(order, template.Keys) && 0 < n <= |order|
    requires StandsAt(w, enabled, template, version, order, responses, n - 1, before)
    requires responses(order[n - 1]).Some? == works
    requires var after := Do(before, Next(order[n - 1], rest, works));
      enabled && after.visit.Some? ==>
        order[n - 1] in after.clusters && responses(order[n - 1]) == Some(after.clusters[order[n - 1]])
    ensures StandsAt(w, enabled, template, version, order, responses, n, Do(before, Next(order[n - 1], rest, works)))
  {
    OneLessRemains(template, order, n);
    if before.visit.Some? {
      OneVisit(before, before.visit.value, order[n - 1], rest, works);
    }
  }

  lemma {:induction false} VisitsStand(w: World, enabled: bool, template: map<Name, DbType>, version: Version,
      order: seq<Name>, rest: Name -> string, works: Name -> bool, responses: Responses, n: nat)
    requires w.visit.None? && Lists(order, template.Keys) && n <= |order|
    requires Answers(w, enabled, template, version, order, rest, works, responses)
    ensures StandsAt(w, enabled, template, version, order, responses, n,
      Visits(w, enabled, template, version, order, rest, works, n))
  {
    if n == 0 {
      StandsAtBegin(w, enabled, template, version, order, responses);
    } else {
      var name := order[n - 1];
      VisitsStand(w, enabled, template, version, order, rest, works, responses, n - 1);
      assert Answer(w, enabled, template, version, order, rest, works, responses, n);
      StandsAtNext(w, enabled, template, version, order, rest(name), works(name), responses, n,
        Visits(w, enabled, template, version, order, rest, works, n - 1));
    }
  }

  /** What the loop leaves in the status is what the steps of an undisturbed pass leave there. */
  lemma {:induction false} PassIsItsSteps(w: World, enabled: bool, template: map<Name, DbType>, version: Version,
      order: seq<Name>, rest: Name -> string, works: Name -> bool, responses: Responses)
    requires w.visit.None? && Lists(order, template.Keys)
    requires Answers(w, enabled, template, version, order, rest, works, responses)
    ensures Do(Visits(w, enabled, template, version, order, rest, works, |order|), Finish).status
      == StatusAfter(enabled, template, order, version, responses, w.status)
  {
    VisitsStand(w, enabled, template, version, order, rest, works, responses, |order|);
    assert order[..|order|] == order;
    assert template.Keys <= Elements(order);
  }

  // ---------------------------------------------------------------- the control plane

  class ControlPlane {
    var status: Version

    /**
     One pass. With OVN enabled the images are recorded exactly when the template names a cluster and every
     object returned was Ready at its own generation; with OVN disabled, when the template names a cluster.
     */
    method ReconcileOVNDbClusters(
      enabled: bool, template: map<Name, DbType>, order: seq<Name>, version: Version, responses: Responses)
      returns (ready: bool, err: bool)
      requires Lists(order, template.Keys)
      modifies this
      ensures err <==> exists i :: 0 <= i < |order| && FailsAt(enabled, template, version, responses, order[i])
      ensures !err <==> forall name :: name in template ==>
        && responses(name).Some?
        && (enabled ==> (if template[name] == NB then version.nb else version.sb).Some?)
      ensures ready <==> (!err && order != [] && (enabled ==> forall i :: 0 <= i < |order| ==>
        var c := responses(order[i]).value; c.ready && c.observedGeneration == c.generation))
      ensures status == if ready then version else if !enabled && order != [] then NO_IMAGES else old(status)
      ensures status == StatusAfter(enabled, template, order, version, responses, old(status))
    {
      ready := order != [];
      err := false;
      for i := 0 to |order|
        invariant forall k :: 0 <= k < i ==> !FailsAt(enabled, template, version, responses, order[k])
        invariant ready <==> order != [] && (enabled ==> forall k :: 0 <= k < i ==> Current(responses(order[k]).value))
        invariant status == if !enabled && i > 0 then NO_IMAGES else old(status)
      {
        var name := order[i];
        assert name in order;
        if !enabled {
          status := NO_IMAGES;
          if responses(name).None? {
            return false, true;
          }
          continue;
        }
        if responses(name).None? || ImageFor(version, template[name]).None? {
          return false, true;
        }
        var obj := responses(name).value;
        ready := ready && obj.observedGeneration == obj.generation && obj.ready;
      }
      if ready {
        status := version;
      }
    }
  }
}
