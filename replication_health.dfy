/**
 * Volume replication health on the cluster/application card: the donut
 * summary of protected volumes by health (`VolumeSummarySection`) and the
 * "protected PVCs, N with issues" figure (`ProtectedPVCsSection`).
 */
module ReplicationHealth {
  import opened Wrappers

  /**
   * Elapsed seconds assumed for an asynchronously replicated volume that has
   * never synced. The constant is defined in `packages/mco/constants`, which is
   * not part of this model; no proof depends on its value.
   */
  const LEAST_SECONDS_IN_PROMETHEUS: int := 10

  datatype ReplicationType = Sync | Async

  datatype Health = Critical | Warning | Healthy

  /** One protected volume (ProtectedPVCData); `lastSyncTime` is in seconds. */
  datatype ProtectedPVC = ProtectedPVC(
    replicationType: ReplicationType,
    lastSyncTime: Option<int>,
    schedulingInterval: string,
    pvcName: string,
    pvcNamespace: string)

  /** The application picked in the card's dropdown (ProtectedAppsMap). */
  datatype SelectedApp = SelectedApp(appName: string, appNamespace: string)

  /**
   * What the section gets from outside: the current time, the health
   * classifier `getVolumeReplicationHealth(seconds, interval)[0]`, and the
   * application filter `filterPVCDataUsingApp`.
   */
  datatype Env = Env(
    now: int,
    classify: (int, string) -> Health,
    matchesApp: (ProtectedPVC, SelectedApp) -> bool)

  /** Seconds since the last sync, or the floor constant when there was none. */
  function ElapsedSeconds(pvc: ProtectedPVC, now: int): int {
    if pvc.lastSyncTime.Some? then now - pvc.lastSyncTime.value else LEAST_SECONDS_IN_PROMETHEUS
  }

  /** Only asynchronous replication has a lag-based health; anything else is healthy. */
  function PvcHealth(pvc: ProtectedPVC, env: Env): (h: Health)
    ensures pvc.replicationType != Async ==> h == Healthy
    ensures pvc.replicationType == Async && pvc.lastSyncTime.None? ==>
              h == env.classify(LEAST_SECONDS_IN_PROMETHEUS, pvc.schedulingInterval)
    ensures pvc.replicationType == Async && pvc.lastSyncTime.Some? ==>
              h == env.classify(env.now - pvc.lastSyncTime.value, pvc.schedulingInterval)
  {
    if pvc.replicationType == Async then env.classify(ElapsedSeconds(pvc, env.now), pvc.schedulingInterval)
    else Healthy
  }

  /** Without a selected application every volume is considered. */
  predicate Considered(pvc: ProtectedPVC, selected: Option<SelectedApp>, env: Env) {
    selected.None? || env.matchesApp(pvc, selected.value)
  }

  /** The number of considered volumes of health `h`. */
  function CountHealth(data: seq<ProtectedPVC>, selected: Option<SelectedApp>, env: Env, h: Health): nat {
    if data == [] then 0
    else
      var last := data[|data| - 1];
      CountHealth(data[..|data| - 1], selected, env, h)
      + if Considered(last, selected, env) && PvcHealth(last, env) == h then 1 else 0
  }

  /** The number of considered volumes. */
  function CountConsidered(data: seq<ProtectedPVC>, selected: Option<SelectedApp>, env: Env): nat {
    if data == [] then 0
    else
      CountConsidered(data[..|data| - 1], selected, env)
      + if Considered(data[|data| - 1], selected, env) then 1 else 0
  }

  /** The number of considered volumes that are not healthy. */
  function CountIssues(data: seq<ProtectedPVC>, selected: Option<SelectedApp>, env: Env): nat {
    if data == [] then 0
    else
      var last := data[|data| - 1];
      CountIssues(data[..|data| - 1], selected, env)
      + if Considered(last, selected, env) && PvcHealth(last, env) != Healthy then 1 else 0
  }

  datatype VolumeHealth = VolumeHealth(critical: nat, warning: nat, healthy: nat)

  /**
   * `updateSummary`: starts all three buckets at zero and, for every volume
   * that passes the application filter, increments the bucket of its health.
   */
  method UpdateSummary(protectedPVCData: Option<seq<ProtectedPVC>>, selected: Option<SelectedApp>, env: Env)
    returns (summary: VolumeHealth)
    ensures protectedPVCData.None? ==> summary == VolumeHealth(0, 0, 0)
    ensures protectedPVCData.Some? ==>
      && summary.critical == CountHealth(protectedPVCData.value, selected, env, Critical)
      && summary.warning == CountHealth(protectedPVCData.value, selected, env, Warning)
      && summary.healthy == CountHealth(protectedPVCData.value, selected, env, Healthy)
  {
    summary := VolumeHealth(0, 0, 0);
    if protectedPVCData.None? {
      return;
    }
    var data := protectedPVCData.value;
    for i := 0 to |data|
      invariant summary.critical == CountHealth(data[..i], selected, env, Critical)
      invariant summary.warning == CountHealth(data[..i], selected, env, Warning)
      invariant summary.healthy == CountHealth(data[..i], selected, env, Healthy)
    {
      var pvc := data[i];
      var health := PvcHealth(pvc, env);
      assert data[..i + 1][..i] == data[..i];
      if Considered(pvc, selected, env) {
        match health
        case Critical => summary := summary.(critical := summary.critical + 1);
        case Warning => summary := summary.(warning := summary.warning + 1);
        case Healthy => summary := summary.(healthy := summary.healthy + 1);
      }
    }
    assert data[..|data|] == data;
  }

  /**
   * `updateProtectedPVC`: the total is the length of the whole list, whatever
   * the filter; the issue count counts considered volumes that are not healthy.
   */
  method UpdateProtectedPVC(protectedPVCData: Option<seq<ProtectedPVC>>, selected: Option<SelectedApp>, env: Env)
    returns (protectedPVCsCount: nat, pvcsWithIssueCount: nat)
    ensures protectedPVCData.None? ==> protectedPVCsCount == 0 && pvcsWithIssueCount == 0
    ensures protectedPVCData.Some? ==>
      && protectedPVCsCount == |protectedPVCData.value|
      && pvcsWithIssueCount == CountIssues(protectedPVCData.value, selected, env)
    ensures pvcsWithIssueCount <= protectedPVCsCount
  {
    if protectedPVCData.None? {
      return 0, 0;
    }
    var data := protectedPVCData.value;
    var acc := 0;
    for i := 0 to |data|
      invariant acc == CountIssues(data[..i], selected, env)
      invariant acc <= i
    {
      assert data[..i + 1][..i] == data[..i];
      if Considered(data[i], selected, env) && PvcHealth(data[i], env) != Healthy {
        acc := acc + 1;
      }
    }
    assert data[..|data|] == data;
    protectedPVCsCount, pvcsWithIssueCount := |data|, acc;
  }

  /** The three buckets add up to the number of considered volumes. */
  lemma {:induction false} BucketsSumToConsidered(data: seq<ProtectedPVC>, selected: Option<SelectedApp>, env: Env)
    ensures CountHealth(data, selected, env, Critical) + CountHealth(data, selected, env, Warning)
          + CountHealth(data, selected, env, Healthy) == CountConsidered(data, selected, env)
  {
    if data != [] {
      BucketsSumToConsidered(data[..|data| - 1], selected, env);
    }
  }

  /** No more volumes are considered than there are. */
  lemma {:induction false} ConsideredAtMostAll(data: seq<ProtectedPVC>, selected: Option<SelectedApp>, env: Env)
    ensures CountConsidered(data, selected, env) <= |data|
    ensures selected.None? ==> CountConsidered(data, selected, env) == |data|
  {
    if data != [] {
      ConsideredAtMostAll(data[..|data| - 1], selected, env);
    }
  }

  /** A selected application that no volume belongs to gives three empty buckets. */
  lemma {:induction false} UnmatchedAppGivesNothing(data: seq<ProtectedPVC>, app: SelectedApp, env: Env, h: Health)
    requires forall i :: 0 <= i < |data| ==> !env.matchesApp(data[i], app)
    ensures CountHealth(data, Some(app), env, h) == 0
  {
    if data != [] {
      UnmatchedAppGivesNothing(data[..|data| - 1], app, env, h);
    }
  }

  /** The volumes with issues are exactly the critical and the warning ones. */
  lemma {:induction false} IssuesAreCriticalPlusWarning(data: seq<ProtectedPVC>, selected: Option<SelectedApp>, env: Env)
    ensures CountIssues(data, selected, env)
         == CountHealth(data, selected, env, Critical) + CountHealth(data, selected, env, Warning)
  {
    if data != [] {
      IssuesAreCriticalPlusWarning(data[..|data| - 1], selected, env);
    }
  }

  /**
   * Summary and issue count together: the donut's three buckets add up to the
   * considered volumes, which are at most the reported total; the issues
   * equal the donut's critical plus warning.
   */
  lemma SummaryAgreesWithIssues(data: seq<ProtectedPVC>, selected: Option<SelectedApp>, env: Env)
    ensures CountIssues(data, selected, env) + CountHealth(data, selected, env, Healthy)
         == CountConsidered(data, selected, env)
    ensures CountConsidered(data, selected, env) <= |data|
    ensures selected.None? ==>
      CountHealth(data, selected, env, Critical) + CountHealth(data, selected, env, Warning)
      + CountHealth(data, selected, env, Healthy) == |data|
  {
    BucketsSumToConsidered(data, selected, env);
    ConsideredAtMostAll(data, selected, env);
    IssuesAreCriticalPlusWarning(data, selected, env);
  }
}
