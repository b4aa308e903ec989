/**
 Completion of the rollout. In a fair run whose passes see no lookup errors, Deploy reaches its (nil, nil) return
 if and only if no service that was never launched is marked False.
 */
module RolloutCompletion {
  import opened Rollout
  import opened RolloutRuns

  /** Lookups succeed, launches create a job, and existing jobs are found. */
  ghost predicate CleanFor(env: Env, s: Service) {
    env.prep(s).Ready? && env.launch(s).ok && env.launch(s).job.Some? && env.visible(s)
  }

  ghost predicate Clean(env: Env, services: seq<Service>) {
    forall i :: 0 <= i < |services| ==> CleanFor(env, services[i])
  }

  /** Marked False without a job: only a failed lookup does that. */
  predicate Orphan(st: Status, s: Service) {
    IsFalse(st.conds, s) && s !in st.cluster
  }

  ghost predicate NoOrphan(services: seq<Service>, st: Status) {
    forall i :: 0 <= i < |services| ==> !Orphan(st, services[i])
  }

  predicate Finished(st: Status, s: Service) {
    s in st.cluster && st.cluster[s].succeeded > 0
  }

  /** The number of services from i on that are not True. */
  function Pending(services: seq<Service>, i: nat, conds: Conditions): nat
    requires i <= |services|
    decreases |services| - i
  {
    if i == |services| then 0
    else (if IsTrue(conds, services[i]) then 0 else 1) + Pending(services, i + 1, conds)
  }

  lemma {:induction false} PendingShrinks(services: seq<Service>, i: nat, a: Conditions, b: Conditions)
    requires i <= |services|
    requires forall j :: i <= j < |services| && IsTrue(a, services[j]) ==> IsTrue(b, services[j])
    ensures Pending(services, i, b) <= Pending(services, i, a)
    ensures (exists j :: i <= j < |services| && !IsTrue(a, services[j]) && IsTrue(b, services[j])) ==>
      Pending(services, i, b) < Pending(services, i, a)
    decreases |services| - i
  {
    if i < |services| {
      PendingShrinks(services, i + 1, a, b);
    }
  }

  /** From one status to a later one of a clean run nothing gets worse. */
  ghost predicate Onward(services: seq<Service>, st: Status, later: Status) {
    && (forall i :: 0 <= i < |services| && IsTrue(st.conds, services[i]) ==> IsTrue(later.conds, services[i]))
    && (forall s :: s in st.cluster ==> s in later.cluster)
    && (forall s :: Finished(st, s) ==> Finished(later, s))
  }

  /** An iteration in a clean environment. */
  lemma {:induction false} IterateOnward(env: Env, services: seq<Service>, i: nat, base: seq<Mount>, st: Status)
    requires i < |services| && Clean(env, services) && NoOrphan(services, st)
    ensures var r := Iterate(env, services, i, base, st);
      && NoOrphan(services, r.status) && Onward(services, st, r.status)
      && (r.done <==> IsTrue(r.status.conds, services[i]))
      && (IsTrue(st.conds, services[i]) || Finished(st, services[i]) ==> r.done)
      && (IsTrue(st.conds, services[i]) || services[i] in r.status.cluster)
  {
    assert CleanFor(env, services[i]);
  }

  /** A clean pass: it loses nothing, and the first service it leaves pending has a job that had not succeeded. */
  lemma {:induction false} DeployOnward(env: Env, services: seq<Service>, i: nat, base: seq<Mount>, st: Status)
    returns (stop: nat)
    requires i <= |services| && Clean(env, services) && NoOrphan(services, st) && TrueUpTo(services, i, st.conds)
    ensures var r := DeployFrom(env, services, i, base, st);
      && NoOrphan(services, r.status) && Onward(services, st, r.status)
      && i <= stop <= |services|
      && (r.done <==> stop == |services|)
      && TrueUpTo(services, stop, r.status.conds)
      && (stop < |services| ==>
        && !IsTrue(r.status.conds, services[stop])
        && services[stop] in r.status.cluster
        && !IsTrue(st.conds, services[stop]) && !Finished(st, services[stop]))
    decreases |services| - i
  {
    if i == |services| {
      stop := i;
    } else {
      IterateOnward(env, services, i, base, st);
      var r := Iterate(env, services, i, base, st);
      if r.done {
        assert TrueUpTo(services, i + 1, r.status.conds);
        stop := DeployOnward(env, services, i + 1, base, r.status);
      } else {
        stop := i;
      }
    }
  }

  /**
   Progress: a clean pass that finds the job of the first pending service succeeded leaves strictly fewer
   services pending.
   */
  lemma {:induction false} PassMakesProgress(env: Env, services: seq<Service>, st: Status, i: nat)
    requires Clean(env, services) && NoOrphan(services, st)
    requires i < |services|
      && TrueUpTo(services, i, st.conds) && !IsTrue(st.conds, services[i]) && Finished(st, services[i])
    ensures Pending(services, 0, Deploy(env, services, st).status.conds) < Pending(services, 0, st.conds)
  {
    var r := Deploy(env, services, st);
    var stop := DeployOnward(env, services, 0, st.aee.extraMounts, st);
    assert i < stop;
    assert IsTrue(r.status.conds, services[i]);
    PendingShrinks(services, 0, st.conds, r.status.conds);
  }

  /** A True service stays so while it can be looked up, whatever else happens in a pass. */
  lemma {:induction false} TrueStays(env: Env, services: seq<Service>, j: nat, base: seq<Mount>, st: Status, s: Service)
    requires j <= |services| && IsTrue(st.conds, s) && env.prep(s).Ready?
    ensures IsTrue(DeployFrom(env, services, j, base, st).status.conds, s)
    decreases |services| - j
  {
    if j < |services| {
      var r := Iterate(env, services, j, base, st);
      assert IsTrue(r.status.conds, s);
      if r.done {
        TrueStays(env, services, j + 1, base, r.status, s);
      }
    }
  }

  lemma {:induction false} RestoredFrom(env: Env, services: seq<Service>, j: nat, base: seq<Mount>, st: Status, i: nat)
    requires j <= i < |services| && TrueUpTo(services, i, st.conds)
    requires forall k :: j <= k <= i ==> env.prep(services[k]).Ready?
    requires IsFalse(st.conds, services[i]) && Finished(st, services[i]) && env.visible(services[i])
    ensures IsTrue(DeployFrom(env, services, j, base, st).status.conds, services[i])
    decreases i - j
  {
    var r := Iterate(env, services, j, base, st);
    assert env.prep(services[j]).Ready?;
    if j < i {
      assert IsTrue(st.conds, services[j]);
      assert r.done && r.status.conds == st.conds && r.status.cluster == st.cluster;
      RestoredFrom(env, services, j + 1, base, r.status, i);
    } else {
      assert r.done && IsTrue(r.status.conds, services[i]);
      TrueStays(env, services, j + 1, base, r.status, services[i]);
    }
  }

  /** A finished service that a lookup error marked False is True again after the next pass that can look up the
      services up to it and sees its job, without a launch and whatever happens to the services behind it. */
  lemma {:induction false} DemotedServiceIsRestored(env: Env, services: seq<Service>, st: Status, i: nat)
    requires i < |services| && TrueUpTo(services, i, st.conds)
    requires forall k :: 0 <= k <= i ==> env.prep(services[k]).Ready?
    requires IsFalse(st.conds, services[i]) && Finished(st, services[i]) && env.visible(services[i])
    ensures var r := Deploy(env, services, st);
      && IsTrue(r.status.conds, services[i])
      && forall k :: |st.launches| <= k < |r.status.launches| ==> r.status.launches[k].service != services[i]
  {
    RestoredFrom(env, services, 0, st.aee.extraMounts, st, i);
    DeployLaunchesNoneAgain(env, services, 0, st.aee.extraMounts, st);
  }

  // ---------------------------------------------------------------- fair runs

  ghost predicate CleanRun(services: seq<Service>, steps: Schedule) {
    forall n: nat :: steps(n).PassStep? ==> Clean(steps(n).env, services)
  }

  ghost predicate PassAtOrAfter(steps: Schedule, n: nat, m: nat) {
    n <= m && steps(m).PassStep?
  }

  ghost predicate FinishedAtOrAfter(trace: Trace, s: Service, n: nat, m: nat) {
    n <= m && Finished(trace(m), s)
  }

  ghost predicate PassComes(steps: Schedule, n: nat) {
    exists m: nat :: PassAtOrAfter(steps, n, m)
  }

  ghost predicate JobFinishes(trace: Trace, s: Service, n: nat) {
    exists m: nat :: FinishedAtOrAfter(trace, s, n, m)
  }

  /** Passes go on, and every job succeeds in the end. */
  ghost predicate Fair(trace: Trace, steps: Schedule) {
    && (forall n: nat {:trigger PassComes(steps, n)} :: PassComes(steps, n))
    && (forall n: nat, s {:trigger JobFinishes(trace, s, n)} :: s in trace(n).cluster ==> JobFinishes(trace, s, n))
  }

  ghost predicate DoneAt(services: seq<Service>, trace: Trace, steps: Schedule, n: nat) {
    steps(n).PassStep? && PassResult(services, trace(n), steps(n)).done
  }

  lemma {:induction false} StepOnward(services: seq<Service>, trace: Trace, steps: Schedule, n: nat)
    requires IsTrace(services, trace, steps) && CleanRun(services, steps) && NoOrphan(services, trace(n))
    ensures NoOrphan(services, trace(n + 1)) && Onward(services, trace(n), trace(n + 1))
  {
    assert Legal(trace(n), steps(n)) && trace(n + 1) == Next(services, trace(n), steps(n));
    if steps(n).PassStep? {
      var start := trace(n).(aee := steps(n).base);
      assert NoOrphan(services, start);
      var _ := DeployOnward(steps(n).env, services, 0, start.aee.extraMounts, start);
    }
  }

  lemma {:induction false} RunOnward(services: seq<Service>, trace: Trace, steps: Schedule, n: nat, m: nat)
    requires IsTrace(services, trace, steps) && CleanRun(services, steps) && NoOrphan(services, trace(n)) && n <= m
    ensures NoOrphan(services, trace(m)) && Onward(services, trace(n), trace(m))
    decreases m - n
  {
    if n < m {
      StepOnward(services, trace, steps, n);
      RunOnward(services, trace, steps, n + 1, m);
    }
  }

  /** The pass at m either completes or stops at a pending service that has a job by then. */
  lemma {:induction false} PassStops(services: seq<Service>, trace: Trace, steps: Schedule, m: nat) returns (stop: nat)
    requires IsTrace(services, trace, steps) && CleanRun(services, steps) && NoOrphan(services, trace(m))
    requires steps(m).PassStep? && !DoneAt(services, trace, steps, m)
    ensures stop < |services| && services[stop] in trace(m + 1).cluster
    ensures TrueUpTo(services, stop, trace(m + 1).conds) && !IsTrue(trace(m + 1).conds, services[stop])
  {
    var start := trace(m).(aee := steps(m).base);
    assert trace(m + 1) == Next(services, trace(m), steps(m));
    stop := DeployOnward(steps(m).env, services, 0, start.aee.extraMounts, start);
  }

  /** A pass that finds the job of the service at stop succeeded leaves it True. */
  lemma {:induction false} PassFinds(services: seq<Service>, trace: Trace, steps: Schedule, p: nat, stop: nat)
    requires IsTrace(services, trace, steps) && CleanRun(services, steps) && NoOrphan(services, trace(p))
    requires steps(p).PassStep?
    requires stop < |services| && TrueUpTo(services, stop, trace(p).conds) && Finished(trace(p), services[stop])
    ensures IsTrue(trace(p + 1).conds, services[stop])
  {
    var start := trace(p).(aee := steps(p).base);
    assert trace(p + 1) == Next(services, trace(p), steps(p));
    var again := DeployOnward(steps(p).env, services, 0, start.aee.extraMounts, start);
    assert stop < again;
  }

  lemma {:induction false} PendingAlong(services: seq<Service>, trace: Trace, steps: Schedule, n: nat, m: nat, i: nat)
    requires IsTrace(services, trace, steps) && CleanRun(services, steps) && NoOrphan(services, trace(n)) && n <= m
    requires i < |services| && !IsTrue(trace(n).conds, services[i]) && IsTrue(trace(m).conds, services[i])
    ensures NoOrphan(services, trace(m)) && Pending(services, 0, trace(m).conds) < Pending(services, 0, trace(n).conds)
  {
    RunOnward(services, trace, steps, n, m);
    PendingShrinks(services, 0, trace(n).conds, trace(m).conds);
  }

  /** The job of a pending service succeeds in the end, and a pass after that finds it. */
  lemma {:induction false} PassFollowsSuccess(services: seq<Service>, trace: Trace, steps: Schedule, k: nat,
      stop: nat) returns (p: nat)
    requires IsTrace(services, trace, steps) && CleanRun(services, steps) && Fair(trace, steps)
    requires NoOrphan(services, trace(k))
    requires stop < |services| && services[stop] in trace(k).cluster && TrueUpTo(services, stop, trace(k).conds)
    ensures k <= p && IsTrue(trace(p + 1).conds, services[stop])
  {
    assert JobFinishes(trace, services[stop], k);
    var f: nat :| FinishedAtOrAfter(trace, services[stop], k, f);
    assert PassComes(steps, f);
    p :| PassAtOrAfter(steps, f, p);
    RunOnward(services, trace, steps, k, f);
    RunOnward(services, trace, steps, f, p);
    PassFinds(services, trace, steps, p, stop);
  }

  /** From any point of a fair clean run without orphans, a pass completes or fewer services are pending later. */
  lemma {:induction false} Round(services: seq<Service>, trace: Trace, steps: Schedule, n: nat) returns (d: nat)
    requires IsTrace(services, trace, steps) && CleanRun(services, steps) && Fair(trace, steps)
    requires NoOrphan(services, trace(n))
    ensures DoneAt(services, trace, steps, d) ||
      (NoOrphan(services, trace(d)) && Pending(services, 0, trace(d).conds) < Pending(services, 0, trace(n).conds))
  {
    assert PassComes(steps, n);
    var m: nat :| PassAtOrAfter(steps, n, m);
    RunOnward(services, trace, steps, n, m);
    if DoneAt(services, trace, steps, m) {
      return m;
    }
    var stop := PassStops(services, trace, steps, m);
    RunOnward(services, trace, steps, n, m + 1);
    var p := PassFollowsSuccess(services, trace, steps, m + 1, stop);
    d := p + 1;
    PendingAlong(services, trace, steps, n, d, stop);
  }

  /** From any point of a fair clean run without orphans, a later pass returns (nil, nil). */
  lemma {:induction false} FairRunCompletes(services: seq<Service>, trace: Trace, steps: Schedule,
      n: nat) returns (d: nat)
    requires IsTrace(services, trace, steps) && CleanRun(services, steps) && Fair(trace, steps)
    requires NoOrphan(services, trace(n))
    ensures DoneAt(services, trace, steps, d)
    decreases Pending(services, 0, trace(n).conds)
  {
    d := Round(services, trace, steps, n);
    if !DoneAt(services, trace, steps, d) {
      d := FairRunCompletes(services, trace, steps, d);
    }
  }

  // ---------------------------------------------------------------- the runs that never complete

  lemma {:induction false} DeployKeepsOrphan(env: Env, services: seq<Service>, i: nat, base: seq<Mount>, st: Status,
      s: Service)
    requires i <= |services| && Orphan(st, s)
    ensures var r := DeployFrom(env, services, i, base, st);
      Orphan(r.status, s) && (s in services[i..] ==> !r.done)
    decreases |services| - i
  {
    if i < |services| {
      var r := Iterate(env, services, i, base, st);
      IterateEffect(env, services, i, base, st);
      assert Orphan(r.status, s);
      if r.done {
        DeployKeepsOrphan(env, services, i + 1, base, r.status, s);
        assert services[i..] == [services[i]] + services[i + 1..];
      }
    }
  }

  /** In no run, clean or not, does a service that was marked False without a launch ever become True. */
  lemma {:induction false} OrphanStaysForever(services: seq<Service>, trace: Trace, steps: Schedule, n: nat, m: nat,
      s: Service)
    requires IsTrace(services, trace, steps) && n <= m && Orphan(trace(n), s) && s in services
    ensures Orphan(trace(m), s) && !DoneAt(services, trace, steps, m)
    decreases m - n
  {
    if n < m {
      OrphanStaysForever(services, trace, steps, n, m - 1, s);
      var before, step := trace(m - 1), steps(m - 1);
      assert trace(m) == Next(services, before, step) && Legal(before, step) by { assert trace(m - 1 + 1) == trace(m); }
      if step.PassStep? {
        DeployKeepsOrphan(step.env, services, 0, step.base.extraMounts, before.(aee := step.base), s);
      }
    }
    if steps(m).PassStep? {
      DeployKeepsOrphan(steps(m).env, services, 0, steps(m).base.extraMounts, trace(m).(aee := steps(m).base), s);
      assert services[0..] == services;
    }
  }

  /** A fair clean run completes exactly when it starts without an orphan among the services. */
  lemma {:induction false} CompletesIffNoOrphan(services: seq<Service>, trace: Trace, steps: Schedule)
    requires IsTrace(services, trace, steps) && CleanRun(services, steps) && Fair(trace, steps)
    ensures (exists d: nat :: DoneAt(services, trace, steps, d)) <==> NoOrphan(services, trace(0))
  {
    if NoOrphan(services, trace(0)) {
      var d := FairRunCompletes(services, trace, steps, 0);
    } else {
      var i :| 0 <= i < |services| && Orphan(trace(0), services[i]);
      forall d: nat ensures !DoneAt(services, trace, steps, d) {
        OrphanStaysForever(services, trace, steps, 0, d, services[i]);
      }
    }
  }

  /** A failed lookup of a service that was never launched makes it an orphan. */
  lemma {:induction false} LookupErrorMakesOrphans(env: Env, services: seq<Service>, st: Status, i: nat)
    requires i < |services| && TrueUpTo(services, i, st.conds) && services[i] !in st.conds && services[i] !in st.cluster
    requires forall j :: 0 <= j < i ==> env.prep(services[j]).Ready?
    requires env.prep(services[i]).Broken?
    ensures Orphan(Deploy(env, services, st).status, services[i])
  {
    BrokenFrom(env, services, 0, st.aee.extraMounts, st, i);
  }

  lemma {:induction false} BrokenFrom(env: Env, services: seq<Service>, k: nat, base: seq<Mount>, st: Status, i: nat)
    requires k <= i < |services|
      && TrueUpTo(services, i, st.conds) && services[i] !in st.conds && services[i] !in st.cluster
    requires forall j :: 0 <= j < i ==> env.prep(services[j]).Ready?
    requires env.prep(services[i]).Broken?
    ensures Orphan(DeployFrom(env, services, k, base, st).status, services[i])
    decreases i - k
  {
    if k < i {
      assert IsTrue(st.conds, services[k]);
      BrokenFrom(env, services, k + 1, base, Iterate(env, services, k, base, st).status, i);
    }
  }
}
