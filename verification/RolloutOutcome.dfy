/**
 How a pass of Deploy ends, said of the services, the jobs and the answers of the environment alone: where it stops,
 when it returns an error, and which conditions, jobs and images it leaves.
 */
module RolloutOutcome {
  import opened Wrappers
  import opened Rollout
  import opened RolloutRuns

  type Images = map<string, string>

  /** The condition of a service is as it was. */
  ghost predicate Kept(before: Conditions, after: Conditions, s: Service) {
    (s in after <==> s in before) && (s in before ==> after[s] == before[s])
  }

  /** A launch leaves a job that has succeeded alone; any other makes room for the new one, if there is one. */
  ghost predicate JobLaunched(env: Env, s: Service, before: Cluster, after: Cluster) {
    if env.launch(s).job == None || (s in before && before[s].succeeded > 0) then JobKept(before, after, s)
    else s in after && after[s] == env.launch(s).job.value
  }

  ghost predicate JobKept(before: Cluster, after: Cluster, s: Service) {
    (s in after <==> s in before) && (s in before ==> after[s] == before[s])
  }

  /** The job of a service is launched if and only if the service has no condition yet. */
  ghost predicate JobIs(env: Env, s: Service, before: Status, after: Status) {
    if s in before.conds then JobKept(before.cluster, after.cluster, s)
    else JobLaunched(env, s, before.cluster, after.cluster)
  }

  /**
   A pass ends at service s. It is an error that the service cannot be looked up, that its launch is refused, or that
   its job is seen to have failed beyond its limit; a job that is seen to run is none, and neither is one that is not
   seen.
   */
  ghost predicate EndsAt(env: Env, s: Service, before: Status, r: Result) {
    var conds, jobs := r.status.conds, r.status.cluster;
    if env.prep(s) == Broken then
      r.err && s in conds && conds[s] == False(Error) && JobKept(before.cluster, jobs, s)
    else (
      && JobIs(env, s, before, r.status)
      && if s !in before.conds && !env.launch(s).ok then
           r.err && s !in conds
         else if s !in jobs || !env.visible(s) then
           !r.err && Kept(before.conds, conds, s)
         else (
           && jobs[s].succeeded <= 0 && s in conds
           && r.err == (jobs[s].failed > jobs[s].backoffLimit)
           && conds[s] == False(if r.err then FromJob(jobs[s].failureReason) else Requested)))
  }

  /** A service that a pass gets through: it is looked up, and True as it was or by a job that has succeeded. */
  ghost predicate Passes(env: Env, s: Service, before: Status, after: Status) {
    && env.prep(s).Ready?
    && s in after.conds && after.conds[s] == True
    && JobIs(env, s, before, after)
    && ((s in before.conds && before.conds[s] == True)
      || (s in after.cluster && env.visible(s) && after.cluster[s].succeeded > 0))
    && (s !in before.conds ==> env.launch(s).ok)
  }

  /** Nothing has changed for a service. */
  ghost predicate Untouched(s: Service, before: Status, after: Status) {
    Kept(before.conds, after.conds, s) && JobKept(before.cluster, after.cluster, s)
  }

  /** None of the first n services that are found has the image field. */
  ghost predicate OfNone(env: Env, services: seq<Service>, n: nat, f: string)
    requires n <= |services|
  {
    forall j :: 0 <= j < n && env.prep(services[j]).Ready? ==> f !in env.prep(services[j]).spec.imageFields
  }

  /** The images of the first n services are recorded at the version, and no other image has changed. */
  ghost predicate ImagesOf(env: Env, services: seq<Service>, n: nat, before: Images, after: Images)
    requires n <= |services|
  {
    && RecordedUpTo(env, services, n, after)
    && (forall f :: env.version == None || OfNone(env, services, n, f) ==>
      (f in after <==> f in before) && (f in before ==> after[f] == before[f]))
  }

  lemma {:induction false} RecordKeepsOthers(version: Option<Images>, fields: seq<string>, images: Images, f: string)
    requires version == None || f !in fields
    ensures var r := Record(version, fields, images); (f in r <==> f in images) && (f in images ==> r[f] == images[f])
    decreases |fields|
  {
    if version.Some? && fields != [] {
      RecordKeepsOthers(version, fields[1..], images[fields[0] := ImageOf(version.value, fields[0])], f);
    }
  }

  lemma {:induction false} ImagesOfOneMore(env: Env, services: seq<Service>, n: nat, before: Images, images: Images)
    requires n < |services| && env.prep(services[n]).Ready? && ImagesOf(env, services, n, before, images)
    ensures ImagesOf(env, services, n + 1, before, Record(env.version, env.prep(services[n]).spec.imageFields, images))
  {
    var fields := env.prep(services[n]).spec.imageFields;
    var after := Record(env.version, fields, images);
    RecordedByOne(env, services, n, images);
    forall f | env.version == None || OfNone(env, services, n + 1, f)
      ensures (f in after <==> f in before) && (f in before ==> after[f] == before[f])
    {
      assert env.version == None || OfNone(env, services, n, f);
      RecordKeepsOthers(env.version, fields, images, f);
    }
  }

  /** The first n services have been passed, with their images, and nothing else has changed. */
  ghost predicate Through(env: Env, services: seq<Service>, n: nat, before: Status, after: Status)
    requires n <= |services|
  {
    && (forall j :: 0 <= j < n ==> Passes(env, services[j], before, after))
    && (forall s :: s !in services[..n] ==> Untouched(s, before, after))
    && ImagesOf(env, services, n, before.images, after.images)
  }

  /** Where a pass stops: the services in front have been passed, and it ends there. */
  ghost predicate Outcome(env: Env, services: seq<Service>, stop: nat, before: Status, r: Result) {
    && stop <= |services|
    && (r.done <==> stop == |services|)
    && (forall j :: 0 <= j < stop ==> Passes(env, services[j], before, r.status))
    && (forall s :: s !in services[..stop] && (stop == |services| || s != services[stop]) ==>
      Untouched(s, before, r.status))
    && ImagesOf(env, services, stop, before.images, r.status.images)
    && (if stop == |services| then !r.err
        else services[stop] !in services[..stop] && EndsAt(env, services[stop], before, r))
  }

  lemma {:induction false} ConditionalEnds(env: Env, index: nat, s: Service, st: Status)
    requires env.prep(s).Ready?
    ensures var r := Conditional(env, index, s, st);
      && (forall t :: t != s ==> Untouched(t, st, r.status))
      && (if !r.err && IsTrue(r.status.conds, s) then Passes(env, s, st, r.status) else EndsAt(env, s, st, r))
      && (IsTrue(st.conds, s) ==> !r.err && IsTrue(r.status.conds, s))
      && r.status.images == st.images && !r.done
  {
  }

  /** One iteration either gets through its service or ends there. */
  lemma {:induction false} IterateEnds(env: Env, services: seq<Service>, n: nat, base: seq<Mount>, st: Status)
    requires n < |services|
    ensures var r, s := Iterate(env, services, n, base, st), services[n];
      && (forall t :: t != s ==> Untouched(t, st, r.status))
      && (if r.done then !r.err && Passes(env, s, st, r.status) else EndsAt(env, s, st, r))
      && (s in st.conds && st.conds[s] == True && env.prep(s).Ready? ==> r.done)
      && r.status.images == (
        if r.done then Record(env.version, env.prep(s).spec.imageFields, st.images) else st.images)
  {
    if env.prep(services[n]).Ready? {
      ConditionalEnds(env, n, services[n], st.(aee := Prepare(env, env.prep(services[n]), base, st.aee)));
    }
  }

  /** A service passed before is passed still after the iteration for service s. */
  lemma {:induction false} PassesStill(env: Env, s: Service, t: Service, before: Status, mid: Status, after: Status)
    requires Passes(env, t, before, mid)
    requires t != s ==> Untouched(t, mid, after)
    requires t == s ==> Passes(env, s, mid, after)
    ensures Passes(env, t, before, after)
  {
  }

  lemma {:induction false} ThroughOne(env: Env, services: seq<Service>, n: nat, before: Status, mid: Status,
      after: Status)
    requires n < |services| && Through(env, services, n, before, mid)
    requires forall t :: t != services[n] ==> Untouched(t, mid, after)
    requires Passes(env, services[n], mid, after)
    requires ImagesOf(env, services, n + 1, before.images, after.images)
    ensures Through(env, services, n + 1, before, after)
  {
    var s := services[n];
    assert services[..n + 1] == services[..n] + [s];
    forall j | 0 <= j < n ensures Passes(env, services[j], before, after) {
      PassesStill(env, s, services[j], before, mid, after);
    }
    if s !in services[..n] {
      assert Untouched(s, before, mid);
      assert Passes(env, s, before, after);
    }
    forall t | t !in services[..n + 1] ensures Untouched(t, before, after) {
      assert Untouched(t, before, mid) && Untouched(t, mid, after);
    }
  }

  lemma {:induction false} StopsHere(env: Env, services: seq<Service>, n: nat, before: Status, mid: Status, r: Result)
    requires n < |services| && Through(env, services, n, before, mid)
    requires !r.done && EndsAt(env, services[n], mid, r) && r.status.images == mid.images
    requires forall t :: t != services[n] ==> Untouched(t, mid, r.status)
    requires !(services[n] in mid.conds && mid.conds[services[n]] == True && env.prep(services[n]).Ready?)
    ensures Outcome(env, services, n, before, r)
  {
    var s := services[n];
    forall j | 0 <= j < n ensures services[j] != s {
      assert Passes(env, services[j], before, mid);
    }
    assert Untouched(s, before, mid);
    forall j | 0 <= j < n ensures Passes(env, services[j], before, r.status) {
      assert services[j] in services[..n];
      PassesStill(env, s, services[j], before, mid, r.status);
    }
    forall t | t !in services[..n] && t != s ensures Untouched(t, before, r.status) {
      assert Untouched(t, before, mid) && Untouched(t, mid, r.status);
    }
  }

  lemma {:induction false} DeployEnds(env: Env, services: seq<Service>, n: nat, base: seq<Mount>, before: Status,
      st: Status) returns (stop: nat)
    requires n <= |services| && Through(env, services, n, before, st)
    ensures n <= stop <= |services|
    ensures Outcome(env, services, stop, before, DeployFrom(env, services, n, base, st))
    decreases |services| - n
  {
    stop := n;
    if n < |services| {
      IterateEnds(env, services, n, base, st);
      var r := Iterate(env, services, n, base, st);
      if r.done {
        ImagesOfOneMore(env, services, n, before.images, st.images);
        ThroughOne(env, services, n, before, st, r.status);
        stop := DeployEnds(env, services, n + 1, base, before, r.status);
      } else {
        StopsHere(env, services, n, before, st, r);
      }
    }
  }

  /** How a pass ends, and what it leaves. */
  lemma {:induction false} DeployOutcome(env: Env, services: seq<Service>, st: Status) returns (stop: nat)
    ensures Outcome(env, services, stop, st, Deploy(env, services, st))
  {
    stop := DeployEnds(env, services, 0, st.aee.extraMounts, st, st);
  }

  /** Service s makes the pass fail: it cannot be looked up, its launch is refused, or its job has failed for good. */
  ghost predicate Fails(env: Env, s: Service, before: Conditions, jobs: Cluster) {
    || env.prep(s) == Broken
    || (s !in before && !env.launch(s).ok)
    || (s in jobs && env.visible(s) && jobs[s].succeeded <= 0 && jobs[s].failed > jobs[s].backoffLimit)
  }

  /** Deploy returns an error exactly when there is a service it stops at and that makes it fail. */
  lemma {:induction false} DeployFailsIff(env: Env, services: seq<Service>, st: Status) returns (stop: nat)
    ensures var r := Deploy(env, services, st);
      && Outcome(env, services, stop, st, r)
      && (r.err <==> stop < |services| && Fails(env, services[stop], st.conds, r.status.cluster))
  {
    stop := DeployOutcome(env, services, st);
  }
}
