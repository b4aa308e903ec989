/**
 Runs of the rollout: repeated passes against jobs that progress on their own. Safety of the launch order, no
 second launch, and completion of every fair run from which completion is possible.
 */
module RolloutRuns {
  import opened Wrappers
  import opened Rollout

  /** A pass of Deploy with a fresh execution spec, or the progress of a job. */
  datatype Step = PassStep(base: Aee, env: Env) | JobStep(service: Service, job: Job)

  type Trace = nat -> Status
  type Schedule = nat -> Step

  /** Only existing jobs progress, and a job that has succeeded stays succeeded. */
  ghost predicate Legal(st: Status, step: Step) {
    step.JobStep? ==>
      && step.service in st.cluster
      && (st.cluster[step.service].succeeded > 0 ==> step.job.succeeded > 0)
  }

  function PassResult(services: seq<Service>, st: Status, step: Step): Result
    requires step.PassStep?
  {
    Deploy(step.env, services, st.(aee := step.base))
  }

  function Next(services: seq<Service>, st: Status, step: Step): Status {
    match step
    case PassStep(_, _) => PassResult(services, st, step).status
    case JobStep(s, job) => st.(cluster := st.cluster[s := job])
  }

  ghost predicate IsTrace(services: seq<Service>, trace: Trace, steps: Schedule) {
    forall n: nat {:trigger steps(n)} :: Legal(trace(n), steps(n)) && trace(n + 1) == Next(services, trace(n), steps(n))
  }

  predicate Fresh(st: Status) {
    st.conds == map[] && st.cluster == map[] && st.launches == []
  }

  ghost predicate WasLaunched(launches: seq<Launch>, s: Service) {
    exists e :: e in launches && e.service == s
  }

  // ---------------------------------------------------------------- safety of one pass

  /** Every launch found all services in front of it True. */
  ghost predicate Ordered(services: seq<Service>, launches: seq<Launch>) {
    forall e :: e in launches ==>
      && e.index < |services| && services[e.index] == e.service
      && (forall j :: 0 <= j < e.index ==> IsTrue(e.conds, services[j]))
  }

  /** Jobs and True conditions, now and at every launch, belong to services that were launched. */
  ghost predicate Backed(st: Status) {
    && (forall s :: s in st.cluster ==> WasLaunched(st.launches, s))
    && (forall s :: IsTrue(st.conds, s) ==> WasLaunched(st.launches, s))
    && (forall e, s :: e in st.launches && IsTrue(e.conds, s) ==> WasLaunched(st.launches, s))
  }

  ghost predicate TrueUpTo(services: seq<Service>, i: nat, conds: Conditions)
    requires i <= |services|
  {
    forall j :: 0 <= j < i ==> IsTrue(conds, services[j])
  }

  /** What an iteration for the i-th service s may do to the status. */
  ghost predicate Effect(i: nat, s: Service, st: Status, later: Status) {
    && (later.launches == st.launches ||
        (s !in st.conds && exists aee :: later.launches == st.launches + [Launch(i, s, st.conds, aee)]))
    && (later.cluster.Keys == st.cluster.Keys ||
        (later.launches != st.launches && later.cluster.Keys == st.cluster.Keys + {s}))
    && (forall t :: t != s ==> (t in later.conds <==> t in st.conds))
    && (forall t :: t != s && t in st.conds ==> later.conds[t] == st.conds[t])
    && (s in st.conds ==> s in later.conds)
    && (IsTrue(later.conds, s) ==> IsTrue(st.conds, s) || s in later.cluster)
  }

  lemma {:induction false} IterateEffect(env: Env, services: seq<Service>, i: nat, base: seq<Mount>, st: Status)
    requires i < |services|
    ensures var r := Iterate(env, services, i, base, st);
      Effect(i, services[i], st, r.status) && (r.done ==> !r.err && IsTrue(r.status.conds, services[i]))
  {
  }

  lemma {:induction false} EffectKeeps(services: seq<Service>, i: nat, st: Status, later: Status)
    requires i < |services| && TrueUpTo(services, i, st.conds)
    requires Ordered(services, st.launches) && Backed(st)
    requires Effect(i, services[i], st, later)
    ensures Ordered(services, later.launches) && Backed(later)
  {
    var s := services[i];
    if later.launches != st.launches {
      var e := later.launches[|st.launches|];
      assert e.service == s && e in later.launches;
      assert forall d :: d in later.launches <==> d in st.launches || d == e;
      assert WasLaunched(later.launches, s);
      assert forall t :: WasLaunched(st.launches, t) ==> WasLaunched(later.launches, t);
      assert e.conds == st.conds;
    }
  }

  lemma {:induction false} IterateKeeps(env: Env, services: seq<Service>, i: nat, base: seq<Mount>, st: Status)
    requires i < |services| && TrueUpTo(services, i, st.conds)
    requires Ordered(services, st.launches) && Backed(st)
    ensures var r := Iterate(env, services, i, base, st);
      && Ordered(services, r.status.launches) && Backed(r.status)
      && (r.done ==> TrueUpTo(services, i + 1, r.status.conds))
  {
    IterateEffect(env, services, i, base, st);
    EffectKeeps(services, i, st, Iterate(env, services, i, base, st).status);
  }

  lemma {:induction false} DeployKeeps(env: Env, services: seq<Service>, i: nat, base: seq<Mount>, st: Status)
    requires i <= |services| && TrueUpTo(services, i, st.conds)
    requires Ordered(services, st.launches) && Backed(st)
    ensures var r := DeployFrom(env, services, i, base, st);
      && Ordered(services, r.status.launches) && Backed(r.status)
      && (r.done ==> TrueUpTo(services, |services|, r.status.conds))
    decreases |services| - i
  {
    if i < |services| {
      IterateKeeps(env, services, i, base, st);
      var r := Iterate(env, services, i, base, st);
      if r.done {
        DeployKeeps(env, services, i + 1, base, r.status);
      }
    }
  }

  /** From one status to a later one: stored conditions stay stored and their services are not launched again. */
  ghost predicate NoneAgain(st: Status, later: Status) {
    && st.launches <= later.launches
    && (forall s :: s in st.conds ==> s in later.conds)
    && (forall k :: |st.launches| <= k < |later.launches| ==> later.launches[k].service !in st.conds)
  }

  lemma {:induction false} NoneAgainTransitive(a: Status, b: Status, c: Status)
    requires NoneAgain(a, b) && NoneAgain(b, c)
    ensures NoneAgain(a, c)
  {
    forall k | |a.launches| <= k < |c.launches| ensures c.launches[k].service !in a.conds {
      if k < |b.launches| {
        assert c.launches[k] == b.launches[k];
      }
    }
  }

  lemma {:induction false} DeployLaunchesNoneAgain(env: Env, services: seq<Service>, i: nat, base: seq<Mount>,
      st: Status)
    requires i <= |services|
    ensures NoneAgain(st, DeployFrom(env, services, i, base, st).status)
    decreases |services| - i
  {
    if i < |services| {
      var r := Iterate(env, services, i, base, st);
      IterateEffect(env, services, i, base, st);
      if r.done {
        DeployLaunchesNoneAgain(env, services, i + 1, base, r.status);
        NoneAgainTransitive(st, r.status, DeployFrom(env, services, i, base, st).status);
      }
    }
  }

  // ---------------------------------------------------------------- safety of runs

  lemma {:induction false} RunKeeps(services: seq<Service>, trace: Trace, steps: Schedule, n: nat)
    requires IsTrace(services, trace, steps) && Fresh(trace(0))
    ensures Ordered(services, trace(n).launches) && Backed(trace(n))
  {
    if n > 0 {
      RunKeeps(services, trace, steps, n - 1);
      assert trace(n) == Next(services, trace(n - 1), steps(n - 1)) by { assert trace(n - 1 + 1) == trace(n); }
      assert Legal(trace(n - 1), steps(n - 1));
      if steps(n - 1).PassStep? {
        DeployKeeps(steps(n - 1).env, services, 0, steps(n - 1).base.extraMounts,
            trace(n - 1).(aee := steps(n - 1).base));
      }
    }
  }

  /**
   Rollout order: at any point of any run every launch was made while all services in front were True, and with a
   service all services in front of it have been launched.
   */
  lemma {:induction false} LaunchesFollowTheList(services: seq<Service>, trace: Trace, steps: Schedule, n: nat)
    requires IsTrace(services, trace, steps) && Fresh(trace(0))
    ensures Ordered(services, trace(n).launches)
    ensures forall e, j :: e in trace(n).launches && 0 <= j < e.index ==> WasLaunched(trace(n).launches, services[j])
  {
    RunKeeps(services, trace, steps, n);
  }

  /** Once a condition of a service is stored, no later pass of any run launches the service. */
  lemma {:induction false} StoredServicesAreNotRelaunched(services: seq<Service>, trace: Trace, steps: Schedule,
      n: nat, m: nat)
    requires IsTrace(services, trace, steps) && n <= m
    ensures NoneAgain(trace(n), trace(m))
    decreases m - n
  {
    if n < m {
      StoredServicesAreNotRelaunched(services, trace, steps, n, m - 1);
      assert trace(m) == Next(services, trace(m - 1), steps(m - 1)) by { assert trace(m - 1 + 1) == trace(m); }
      if steps(m - 1).PassStep? {
        DeployLaunchesNoneAgain(steps(m - 1).env, services, 0, steps(m - 1).base.extraMounts,
            trace(m - 1).(aee := steps(m - 1).base));
      }
      assert NoneAgain(trace(m - 1), trace(m));
      NoneAgainTransitive(trace(n), trace(m - 1), trace(m));
    }
  }

  // ---------------------------------------------------------------- what completion means

  lemma {:induction false} RecordSets(version: map<string, string>, fields: seq<string>, images: map<string, string>)
    ensures var r := Record(Some(version), fields, images);
      && (forall f :: f in fields ==> f in r && r[f] == ImageOf(version, f))
      && (forall f :: f in images && f !in fields ==> f in r && r[f] == images[f])
    decreases |fields|
  {
    if fields != [] {
      RecordSets(version, fields[1..], images[fields[0] := ImageOf(version, fields[0])]);
      assert fields == [fields[0]] + fields[1..];
    }
  }

  /** The images of the services before i are recorded at the version. */
  ghost predicate RecordedUpTo(env: Env, services: seq<Service>, i: nat, images: map<string, string>)
    requires i <= |services|
  {
    env.version.Some? ==> (
      forall j, f :: 0 <= j < i && env.prep(services[j]).Ready? && f in env.prep(services[j]).spec.imageFields ==>
        f in images
        && images[f] == (if f in env.version.value then env.version.value[f] else "<invalid Value>"))
  }

  lemma {:induction false} RecordedByOne(env: Env, services: seq<Service>, i: nat, images: map<string, string>)
    requires i < |services| && RecordedUpTo(env, services, i, images) && env.prep(services[i]).Ready?
    ensures RecordedUpTo(env, services, i + 1, Record(env.version, env.prep(services[i]).spec.imageFields, images))
  {
    if env.version.Some? {
      RecordSets(env.version.value, env.prep(services[i]).spec.imageFields, images);
    }
  }

  lemma {:induction false} IterateRecords(env: Env, services: seq<Service>, i: nat, base: seq<Mount>, st: Status)
    requires i < |services| && RecordedUpTo(env, services, i, st.images)
    requires Iterate(env, services, i, base, st).done
    ensures RecordedUpTo(env, services, i + 1, Iterate(env, services, i, base, st).status.images)
  {
    RecordedByOne(env, services, i, st.images);
    ConditionalLaunches(env, i, services[i], st.(aee := Prepare(env, env.prep(services[i]), base, st.aee)));
  }

  lemma {:induction false} DoneFrom(env: Env, services: seq<Service>, i: nat, base: seq<Mount>, st: Status)
    requires i <= |services| && TrueUpTo(services, i, st.conds) && RecordedUpTo(env, services, i, st.images)
    requires DeployFrom(env, services, i, base, st).done
    ensures var r := DeployFrom(env, services, i, base, st);
      && !r.err
      && TrueUpTo(services, |services|, r.status.conds)
      && RecordedUpTo(env, services, |services|, r.status.images)
    decreases |services| - i
  {
    if i < |services| {
      var r := Iterate(env, services, i, base, st);
      IterateEffect(env, services, i, base, st);
      IterateRecords(env, services, i, base, st);
      DoneFrom(env, services, i + 1, base, r.status);
    }
  }

  /** Deploy returns (nil, nil) only when every service is True and all their images are recorded. */
  lemma {:induction false} DoneMeansDeployed(env: Env, services: seq<Service>, st: Status)
    requires Deploy(env, services, st).done
    ensures TrueUpTo(services, |services|, Deploy(env, services, st).status.conds)
    ensures RecordedUpTo(env, services, |services|, Deploy(env, services, st).status.images)
  {
    DoneFrom(env, services, 0, st.aee.extraMounts, st);
  }

  // ---------------------------------------------------------------- what a launch is given

  ghost predicate OwnMounts(env: Env, base: seq<Mount>, e: Launch) {
    && env.prep(e.service).Ready?
    && e.aee.extraMounts == base + env.prep(e.service).mounts
  }

  ghost predicate OwnImage(env: Env, e: Launch) {
    env.prep(e.service).Ready? ==>
      var own, image := env.prep(e.service).spec.runnerImage, e.aee.runnerImage;
      && (own != "" ==> image == own)
      && (own == "" && env.version.None? ==> image == env.defaultRunner)
      && (own == "" && env.version.Some? && "AnsibleeeImage" in env.version.value ==>
        image == env.version.value["AnsibleeeImage"])
  }

  /** Between two points of a pass, every launch got its own mounts and image. */
  ghost predicate NewOnesSeeTheirOwn(env: Env, base: seq<Mount>, before: seq<Launch>, after: seq<Launch>) {
    && before <= after
    && forall k :: |before| <= k < |after| ==> OwnMounts(env, base, after[k]) && OwnImage(env, after[k])
  }

  lemma {:induction false} SeeTheirOwnTransitive(env: Env, base: seq<Mount>, a: seq<Launch>, b: seq<Launch>,
      c: seq<Launch>)
    requires NewOnesSeeTheirOwn(env, base, a, b) && NewOnesSeeTheirOwn(env, base, b, c)
    ensures NewOnesSeeTheirOwn(env, base, a, c)
  {
    forall k | |a| <= k < |c| ensures OwnMounts(env, base, c[k]) && OwnImage(env, c[k]) {
      if k < |b| {
        assert c[k] == b[k];
      }
    }
  }

  lemma {:induction false} IterateSeesItsOwn(env: Env, services: seq<Service>, i: nat, base: seq<Mount>, st: Status)
    requires i < |services|
    ensures NewOnesSeeTheirOwn(env, base, st.launches, Iterate(env, services, i, base, st).status.launches)
  {
    if env.prep(services[i]).Ready? {
      var prepared := st.(aee := Prepare(env, env.prep(services[i]), base, st.aee));
      ConditionalLaunches(env, i, services[i], prepared);
      assert OwnMounts(env, base, Launch(i, services[i], st.conds, prepared.aee));
      assert OwnImage(env, Launch(i, services[i], st.conds, prepared.aee));
    }
  }

  /** No launch of a pass sees the mounts of another service, nor its runner image when the version names one. */
  lemma {:induction false} LaunchesSeeTheirOwn(env: Env, services: seq<Service>, i: nat, base: seq<Mount>, st: Status)
    requires i <= |services|
    ensures NewOnesSeeTheirOwn(env, base, st.launches, DeployFrom(env, services, i, base, st).status.launches)
    decreases |services| - i
  {
    if i < |services| {
      var r := Iterate(env, services, i, base, st);
      IterateSeesItsOwn(env, services, i, base, st);
      if r.done {
        LaunchesSeeTheirOwn(env, services, i + 1, base, r.status);
        SeeTheirOwnTransitive(env, base, st.launches, r.status.launches, DeployFrom(env, services, i, base,
            st).status.launches);
      }
    }
  }

  /** The runner image that a service names, if it is found and names one. */
  function Named(env: Env, s: Service): string {
    if env.prep(s).Ready? then env.prep(s).spec.runnerImage else ""
  }

  /** The runner image named last by the first n services. */
  function LastNamed(env: Env, services: seq<Service>, n: nat): Option<string>
    requires n <= |services|
  {
    if n == 0 then None
    else if Named(env, services[n - 1]) != "" then Some(Named(env, services[n - 1]))
    else LastNamed(env, services, n - 1)
  }

  /** The image in place after n iterations of a pass that began with start, when the version names none. */
  function Carried(env: Env, services: seq<Service>, n: nat, start: string): string
    requires n <= |services|
  {
    if LastNamed(env, services, n).Some? then LastNamed(env, services, n).value else start
  }

  /** There is a version, and it names no runner image. */
  ghost predicate NamesNone(env: Env) {
    env.version.Some? && "AnsibleeeImage" !in env.version.value
  }

  /** Every launch between two points of a pass got the image carried to its service. */
  ghost predicate NewOnesCarry(env: Env, services: seq<Service>, start: string, before: seq<Launch>,
      after: seq<Launch>) {
    && before <= after
    && forall k :: |before| <= k < |after| ==>
      && after[k].index < |services| && after[k].service == services[after[k].index]
      && after[k].aee.runnerImage == Carried(env, services, after[k].index + 1, start)
  }

  lemma {:induction false} PreparedCarries(env: Env, services: seq<Service>, i: nat, base: seq<Mount>, aee: Aee,
      start: string)
    requires i < |services| && NamesNone(env) && env.prep(services[i]).Ready?
    requires aee.runnerImage == Carried(env, services, i, start)
    ensures Prepare(env, env.prep(services[i]), base, aee).runnerImage == Carried(env, services, i + 1, start)
  {
  }

  lemma {:induction false} IterateCarries(env: Env, services: seq<Service>, i: nat, base: seq<Mount>, st: Status,
      start: string)
    requires i < |services| && NamesNone(env) && st.aee.runnerImage == Carried(env, services, i, start)
    ensures var r := Iterate(env, services, i, base, st);
      && NewOnesCarry(env, services, start, st.launches, r.status.launches)
      && (r.done ==> r.status.aee.runnerImage == Carried(env, services, i + 1, start))
  {
    if env.prep(services[i]).Ready? {
      PreparedCarries(env, services, i, base, st.aee, start);
      var prepared := st.(aee := Prepare(env, env.prep(services[i]), base, st.aee));
      ConditionalLaunches(env, i, services[i], prepared);
    }
  }

  /** A conditional launch changes nothing of what was prepared, and adds at most the launch of its service with it. */
  lemma {:induction false} ConditionalLaunches(env: Env, index: nat, s: Service, st: Status)
    ensures var r := Conditional(env, index, s, st).status;
      && r.aee == st.aee && r.images == st.images
      && (r.launches == st.launches || r.launches == st.launches + [Launch(index, s, st.conds, st.aee)])
  {
  }

  lemma {:induction false} CarryTransitive(env: Env, services: seq<Service>, start: string, a: seq<Launch>,
      b: seq<Launch>,
      c: seq<Launch>)
    requires NewOnesCarry(env, services, start, a, b) && NewOnesCarry(env, services, start, b, c)
    ensures NewOnesCarry(env, services, start, a, c)
  {
    assert forall k :: 0 <= k < |b| ==> c[k] == b[k];
  }

  lemma {:induction false} LaunchesCarry(env: Env, services: seq<Service>, i: nat, base: seq<Mount>, st: Status,
      start: string)
    requires i <= |services| && NamesNone(env) && st.aee.runnerImage == Carried(env, services, i, start)
    ensures NewOnesCarry(env, services, start, st.launches, DeployFrom(env, services, i, base, st).status.launches)
    decreases |services| - i
  {
    if i < |services| {
      IterateCarries(env, services, i, base, st, start);
      var r := Iterate(env, services, i, base, st);
      if r.done {
        var last := DeployFrom(env, services, i + 1, base, r.status);
        LaunchesCarry(env, services, i + 1, base, r.status, start);
        CarryTransitive(env, services, start, st.launches, r.status.launches, last.status.launches);
      }
    }
  }

  /**
   Exactly when a launch of a pass gets the right runner image although the version names none, that is its own image
   or, if it names none, the one the pass began with: it names one, or no service before it does, or the last one that
   does names the very image the pass began with.
   */
  lemma {:induction false} RunnerImageIsOwnIff(env: Env, services: seq<Service>, st: Status, k: nat)
    requires NamesNone(env) && |st.launches| <= k < |Deploy(env, services, st).status.launches|
    ensures var e := Deploy(env, services, st).status.launches[k];
      && e.index < |services| && e.service == services[e.index]
      && var own := Named(env, e.service);
         var last := LastNamed(env, services, e.index);
         e.aee.runnerImage == (if own != "" then own else st.aee.runnerImage)
         <==> own != "" || last.None? || last.value == st.aee.runnerImage
  {
    LaunchesCarry(env, services, 0, st.aee.extraMounts, st, st.aee.runnerImage);
  }

  /** Without an image in the version, the runner image of one service reaches the next one of the same pass. */
  lemma {:induction false} RunnerImageLeaks() returns (env: Env, services: seq<Service>, st: Status)
    ensures NamesNone(env) && st.aee.runnerImage == "default"
    ensures var launches := Deploy(env, services, st).status.launches;
      && |launches| == 2
      && env.prep(launches[1].service) == Ready(ServiceSpec("", []), [])
      && launches[1].aee.runnerImage == "custom"
  {
    var job := Job(1, 0, 6, "");
    env := Env(
      s => if s == "first" then Ready(ServiceSpec("custom", []), []) else Ready(ServiceSpec("", []), []),
      _ => Launched(true, Some(job)), _ => true, "default", Some(map["NovaComputeImage" := "nova"]));
    st := Status(map[], map[], map[], Aee("default", []), []);
    services := ["first", "second"];
    var one := Iterate(env, services, 0, [], st);
    var two := Iterate(env, services, 1, [], one.status);
    assert DeployFrom(env, services, 2, [], two.status) == Result(two.status, true, false);
    assert DeployFrom(env, services, 1, [], one.status) == Result(two.status, true, false);
    assert Deploy(env, services, st).status == two.status;
  }
}
