/**
 Rolling the services of a deployment out to one nodeset: one pass of Deploy as a function of the status and of
 what the environment answers, and the Deployer object that carries it out.
 */
module Rollout {
  import opened Wrappers

  type Service = string
  type Mount = string

  datatype Reason = Requested | Error | FromJob(reason: string)

  /** A stored condition. A service without one is Unknown. */
  datatype Cond = False(reason: Reason) | True

  type Conditions = map<Service, Cond>

  datatype Job = Job(succeeded: int, failed: int, backoffLimit: int, failureReason: string)

  type Cluster = map<Service, Job>

  datatype ServiceSpec = ServiceSpec(runnerImage: string, imageFields: seq<string>)

  /** Looking the service up and collecting its mounts; any of the errors on the way is Broken. */
  datatype Prep = Broken | Ready(spec: ServiceSpec, mounts: seq<Mount>)

  /** The answer of DeployService and the job the cluster holds afterwards, if any. */
  datatype Launched = Launched(ok: bool, job: Option<Job>)

  datatype Aee = Aee(runnerImage: string, extraMounts: seq<Mount>)

  /** Everything a pass gets to see of its environment. A version that is there has images by field, an absent field
      being a nil pointer; defaultRunner is the default image of the runner, which is always set. */
  datatype Env = Env(
    prep: Service -> Prep,
    launch: Service -> Launched,
    visible: Service -> bool,
    defaultRunner: string,
    version: Option<map<string, string>>)

  const RUNNER_FIELD := "AnsibleeeImage"

  /** The runner image of the version; the default one is used only when there is no version. */
  function RunnerImage(env: Env): (image: Option<string>)
    ensures image.None? ==> env.version.Some?
  {
    match env.version
    case None => Some(env.defaultRunner)
    case Some(images) => if RUNNER_FIELD in images then Some(images[RUNNER_FIELD]) else None
  }

  /** A call of DeployService, with the conditions at that moment. */
  datatype Launch = Launch(index: nat, service: Service, conds: Conditions, aee: Aee)

  datatype Status = Status(
    conds: Conditions, cluster: Cluster, images: map<string, string>, aee: Aee, launches: seq<Launch>)

  datatype Result = Result(status: Status, done: bool, err: bool)

  predicate IsTrue(conds: Conditions, s: Service) {
    s in conds && conds[s].True?
  }

  predicate IsFalse(conds: Conditions, s: Service) {
    s in conds && conds[s].False?
  }

  /** DeployService leaves a job that has succeeded alone. */
  function LaunchJob(cluster: Cluster, s: Service, answer: Launched): Cluster {
    if (s in cluster && cluster[s].succeeded > 0) || answer.job.None? then cluster else cluster[s := answer.job.value]
  }

  /** Polling the job of a service whose condition is False. A job not found leaves the stored conditions alone. */
  function Poll(env: Env, s: Service, st: Status): Result {
    if s !in st.cluster || !env.visible(s) then Result(st, false, false)
    else
      var job := st.cluster[s];
      if job.succeeded > 0 then Result(st.(conds := st.conds[s := True]), false, false)
      else if job.failed > job.backoffLimit then
        Result(st.(conds := st.conds[s := False(FromJob(job.failureReason))]), false, true)
      else Result(st.(conds := st.conds[s := False(Requested)]), false, false)
  }

  function Conditional(env: Env, index: nat, s: Service, st: Status): Result {
    if s !in st.conds then
      var launched := st.(
        launches := st.launches + [Launch(index, s, st.conds, st.aee)],
        cluster := LaunchJob(st.cluster, s, env.launch(s)));
      if !env.launch(s).ok then Result(launched, false, true) else Poll(env, s, launched)
    else if st.conds[s].False? then Poll(env, s, st)
    else Result(st, false, false)
  }

  /** The runner image is replaced only by a value that is set; the mounts start over from those of the pass. */
  function Prepare(env: Env, ready: Prep, base: seq<Mount>, aee: Aee): Aee
    requires ready.Ready?
  {
    var image := if RunnerImage(env).Some? then RunnerImage(env).value else aee.runnerImage;
    Aee(if ready.spec.runnerImage != "" then ready.spec.runnerImage else image, base + ready.mounts)
  }

  /** A field the version does not set is recorded as the text reflection prints for it. */
  function ImageOf(version: map<string, string>, field: string): string {
    if field in version then version[field] else "<invalid Value>"
  }

  function Record(version: Option<map<string, string>>, fields: seq<string>, images: map<string, string>): map<string,
      string> {
    if version.None? || fields == [] then images
    else Record(version, fields[1..], images[fields[0] := ImageOf(version.value, fields[0])])
  }

  /** The i-th iteration of Deploy: whether the loop goes on, and with what. */
  function Iterate(env: Env, services: seq<Service>, i: nat, base: seq<Mount>, st: Status): Result
    requires i < |services|
  {
    var s := services[i];
    var ready := env.prep(s);
    if ready.Broken? then Result(st.(conds := st.conds[s := False(Error)]), false, true)
    else
      var r := Conditional(env, i, s, st.(aee := Prepare(env, ready, base, st.aee)));
      if r.err || !IsTrue(r.status.conds, s) then r
      else Result(r.status.(images := Record(env.version, ready.spec.imageFields, r.status.images)), true, false)
  }

  /** Deploy from its i-th service on; done is the (nil, nil) return. */
  function DeployFrom(env: Env, services: seq<Service>, i: nat, base: seq<Mount>, st: Status): Result
    requires i <= |services|
    decreases |services| - i
  {
    if i == |services| then Result(st, true, false)
    else
      var r := Iterate(env, services, i, base, st);
      if r.done then DeployFrom(env, services, i + 1, base, r.status) else r
  }

  function Deploy(env: Env, services: seq<Service>, st: Status): Result {
    DeployFrom(env, services, 0, st.aee.extraMounts, st)
  }

  /** What a service gets for a condition whose job, if it is there to be seen, runs, has succeeded, or has failed. */
  ghost predicate Polled(env: Env, s: Service, jobs: Cluster, before: Conditions, after: Conditions, err: bool) {
    if s !in jobs || !env.visible(s) then !err && after == before
    else if jobs[s].succeeded > 0 then !err && after == before[s := True]
    else if jobs[s].failed > jobs[s].backoffLimit then
      err && after == before[s := False(FromJob(jobs[s].failureReason))]
    else !err && after == before[s := False(Requested)]
  }

  class Deployer {
    var conditions: Conditions
    var images: map<string, string>
    var aee: Aee
    var cluster: Cluster
    ghost var launches: seq<Launch>

    ghost function View(): Status
      reads this
    {
      Status(conditions, cluster, images, aee, launches)
    }

    constructor (aee: Aee, cluster: Cluster, conditions: Conditions, images: map<string, string>)
      ensures View() == Status(conditions, cluster, images, aee, [])
    {
      this.conditions := conditions;
      this.images := images;
      this.aee := aee;
      this.cluster := cluster;
      launches := [];
    }

    method DeployService(env: Env, ghost index: nat, s: Service) returns (err: bool)
      modifies this`cluster, this`launches
      ensures cluster == LaunchJob(old(cluster), s, env.launch(s)) && err == !env.launch(s).ok
      ensures launches == old(launches) + [Launch(index, s, conditions, aee)]
    {
      launches := launches + [Launch(index, s, conditions, aee)];
      var answer := env.launch(s);
      if !(s in cluster && cluster[s].succeeded > 0) && answer.job.Some? {
        cluster := cluster[s := answer.job.value];
      }
      err := !answer.ok;
    }

    method ConditionalDeploy(env: Env, ghost index: nat, s: Service) returns (err: bool)
      modifies this`conditions, this`cluster, this`launches
      ensures var r := Conditional(env, index, s, old(View())); View() == r.status && err == r.err
      ensures
        if s !in old(conditions) && !env.launch(s).ok then err && conditions == old(conditions)
        else if s in old(conditions) && old(conditions)[s] == True then !err && conditions == old(conditions)
        else Polled(env, s, cluster, old(conditions), conditions, err)
    {
      err := false;
      var nsConditions := conditions;
      if s !in nsConditions {
        err := DeployService(env, index, s);
        if err {
          return;
        }
        nsConditions := nsConditions[s := False(Requested)];
      }
      if nsConditions[s].False? {
        if s !in cluster || !env.visible(s) {
          return;
        }
        var job := cluster[s];
        if job.succeeded > 0 {
          nsConditions := nsConditions[s := True];
        } else if job.failed > job.backoffLimit {
          err := true;
          nsConditions := nsConditions[s := False(FromJob(job.failureReason))];
        } else {
          nsConditions := nsConditions[s := False(Requested)];
        }
      }
      ghost var stored := Conditional(env, index, s, old(View())).status.conds;
      assert nsConditions == stored;
      conditions := nsConditions;
    }

    /** Copies the images of a deployed service into the status. */
    method RecordImages(version: Option<map<string, string>>, fields: seq<string>)
      modifies this`images
      ensures images == Record(version, fields, old(images))
    {
      if version.Some? {
        for k := 0 to |fields|
          invariant Record(version, fields[k..], images) == Record(version, fields, old(images))
        {
          assert fields[k..][1..] == fields[k + 1..];
          images := images[fields[k] := ImageOf(version.value, fields[k])];
        }
      }
    }

    /** One iteration of the loop of Deploy. */
    method DeployOne(env: Env, services: seq<Service>, i: nat, base: seq<Mount>) returns (next: bool, err: bool)
      requires i < |services|
      modifies this
      ensures var r := Iterate(env, services, i, base, old(View()));
        View() == r.status && next == r.done && err == r.err
    {
      var s := services[i];
      var ready := env.prep(s);
      if ready.Broken? {
        conditions := conditions[s := False(Error)];
        return false, true;
      }
      if RunnerImage(env).Some? {
        aee := aee.(runnerImage := RunnerImage(env).value);
      }
      if ready.spec.runnerImage != "" {
        aee := aee.(runnerImage := ready.spec.runnerImage);
      }
      aee := aee.(extraMounts := base + ready.mounts);
      err := ConditionalDeploy(env, i, s);
      if err || !IsTrue(conditions, s) {
        return false, err;
      }
      RecordImages(env.version, ready.spec.imageFields);
      return true, false;
    }

    method Run(env: Env, services: seq<Service>) returns (done: bool, err: bool)
      modifies this
      ensures var r := Deploy(env, services, old(View())); View() == r.status && done == r.done && err == r.err
    {
      var base := aee.extraMounts;
      for i := 0 to |services|
        invariant DeployFrom(env, services, i, base, View()) == Deploy(env, services, old(View()))
      {
        done, err := DeployOne(env, services, i, base);
        if !done {
          return;
        }
      }
      return true, false;
    }
  }
}
