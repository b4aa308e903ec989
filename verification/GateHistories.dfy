/**
 What a passing gate means for all kinds of services at once: those with one custom resource, the OVN database clusters
 and the Galera instances, each with the history of how its images were recorded.
 */
module GateHistories {
  import opened Wrappers
  import P = ImageProtocol
  import O = OvnImages
  import G = ImageGate
  import Galera = GaleraImages

  const NB_FIELD := "OvnNbDbclusterImage"
  const SB_FIELD := "OvnSbDbclusterImage"
  const MARIADB_FIELD := "MariadbImage"

  /** The run behind the recorded images of a service. */
  datatype History =
    | OneResource(run: G.History)
    | OvnClusters(clusters: seq<O.World>, clusterSteps: seq<O.Step>)
    | GaleraInstances(instances: seq<Galera.World>, instanceSteps: seq<Galera.Step>)

  /** An image under its field, or nothing for a nil pointer. */
  function Under(field: string, image: Option<string>): P.Images {
    if image.Some? then map[field := image.value] else map[]
  }

  /** The OVN images that a version names. */
  function OvnVersion(version: P.Images): O.Version {
    O.Version(G.Pointer(version, NB_FIELD), G.Pointer(version, SB_FIELD), None)
  }

  /** The recorded images of the service are those its history ends in, and the gate compares the fields of its kind. */
  ghost predicate Explains(h: History, s: G.Service) {
    match h
    case OneResource(run) => G.Explains(run, s)
    case OvnClusters(worlds, steps) =>
      && O.IsRun(worlds, steps) && s.fields == [NB_FIELD, SB_FIELD]
      && s.status == Under(NB_FIELD, worlds[|steps|].status.nb) + Under(SB_FIELD, worlds[|steps|].status.sb)
    case GaleraInstances(worlds, steps) =>
      && Galera.IsRun(worlds, steps) && s.fields == [MARIADB_FIELD]
      && s.status == Under(MARIADB_FIELD, worlds[|steps|].image)
  }

  /** One pass recorded the OVN images of the version; exactly when OVN was enabled in it, it saw every cluster of its
      template Ready at its own generation, with its image. */
  ghost predicate OvnRolledOut(worlds: seq<O.World>, steps: seq<O.Step>, version: O.Version)
    requires |worlds| == |steps| + 1
  {
    && worlds[|steps|].recorded.Some?
    && var r := worlds[|steps|].recorded.value;
       && r.template != map[] && r.version.nb == version.nb && r.version.sb == version.sb
       && (r.enabled <==>
         && r.seen.Keys == r.template.Keys
         && O.AllReported(worlds[|steps|], r.template, version, r.seen, {})
         && exists m :: 0 <= m < |steps| && O.RecordedByOnePass(worlds, steps, m, r))
  }

  /** What stands behind the recorded images, by the kind of service: a report of all of them together, one pass over
      all clusters, or one instance found Ready. */
  ghost predicate RolledOut(h: History, s: G.Service, version: P.Images)
    requires Explains(h, s)
  {
    match h
    case OneResource(run) => G.RolledOut(run, s, version)
    case OvnClusters(worlds, steps) => OvnRolledOut(worlds, steps, OvnVersion(version))
    case GaleraInstances(worlds, steps) =>
      MARIADB_FIELD in version &&
      exists i :: 0 <= i < |steps| && Galera.FoundReady(worlds, steps, i, version[MARIADB_FIELD])
  }

  lemma {:induction false} OvnGateMeans(worlds: seq<O.World>, steps: seq<O.Step>, s: G.Service, version: P.Images)
    requires Explains(OvnClusters(worlds, steps), s) && s.enabled && G.ImageMatch(s, version)
    requires NB_FIELD in version || SB_FIELD in version
    ensures OvnRolledOut(worlds, steps, OvnVersion(version))
  {
    var status := worlds[|steps|].status;
    assert s.fields[0] == NB_FIELD && s.fields[1] == SB_FIELD;
    assert G.StringPointersEqual(G.Pointer(s.status, s.fields[0]), G.Pointer(version, s.fields[0]));
    assert G.StringPointersEqual(G.Pointer(s.status, s.fields[1]), G.Pointer(version, s.fields[1]));
    assert G.Pointer(s.status, NB_FIELD) == status.nb && G.Pointer(s.status, SB_FIELD) == status.sb;
    O.MatchMeansReported(worlds, steps, |steps|, OvnVersion(version));
  }

  lemma {:induction false} GaleraGateMeans(worlds: seq<Galera.World>, steps: seq<Galera.Step>, s: G.Service,
      version: P.Images)
    requires Explains(GaleraInstances(worlds, steps), s) && s.enabled && G.ImageMatch(s, version)
    requires MARIADB_FIELD in version
    ensures exists i :: 0 <= i < |steps| && Galera.FoundReady(worlds, steps, i, version[MARIADB_FIELD])
  {
    assert s.fields[0] == MARIADB_FIELD;
    assert G.StringPointersEqual(G.Pointer(s.status, s.fields[0]), G.Pointer(version, s.fields[0]));
    var i := Galera.RecordedImageWasReadyOnce(worlds, steps, |steps|);
  }

  /** A passing gate, for every enabled service of the list of which the version names the compared images. */
  lemma {:induction false} PassingGateMeansRolledOut(services: seq<G.Service>, version: P.Images,
      histories: seq<History>,
      i: nat)
    requires |histories| == |services| && i < |services| && Explains(histories[i], services[i])
    requires G.Mismatches(services, version) == []
    requires services[i].enabled && services[i].fields != []
    requires forall k :: 0 <= k < |services[i].fields| ==> services[i].fields[k] in version
    ensures RolledOut(histories[i], services[i], version)
  {
    G.NoMismatch(services, version);
    var s := services[i];
    assert G.ImageMatch(s, version);
    match histories[i]
    case OneResource(run) =>
      assert [s][0] == s;
      G.NoMismatch([s], version);
      G.GateIsSound([s], version, [run], 0);
    case OvnClusters(worlds, steps) =>
      assert s.fields[0] in version;
      OvnGateMeans(worlds, steps, s, version);
    case GaleraInstances(worlds, steps) =>
      assert s.fields[0] in version;
      GaleraGateMeans(worlds, steps, s, version);
  }
}
