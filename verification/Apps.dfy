/** app_examiner/app_examiner.go: apps merged from desired and actual LRPs, their status and metrics. */
module Apps {
  import opened Options
  import opened Sorting
  import opened Snapshot
  import Monitors
  import Routing

  // ---------- specification ----------

  function ToInstance(lrp: ActualLRP): InstanceInfo {
    InstanceInfo(lrp.instanceGuid, lrp.cellId, lrp.index, lrp.address, lrp.ports, lrp.state,
                 lrp.since, lrp.placementError, lrp.crashCount, false, NO_METRICS)
  }

  /** The actual LRPs of one app, as the receptor answers for a process guid. */
  function OfGuid(lrps: seq<ActualLRP>, guid: string): seq<ActualLRP> {
    if lrps == [] then []
    else
      var last := lrps[|lrps| - 1];
      OfGuid(lrps[..|lrps| - 1], guid) + if last.processGuid == guid then [last] else []
  }

  function Instances(lrps: seq<ActualLRP>): (r: seq<InstanceInfo>)
    ensures |r| == |lrps| && forall i :: 0 <= i < |lrps| ==> r[i] == ToInstance(lrps[i])
  {
    seq(|lrps|, i requires 0 <= i < |lrps| => ToInstance(lrps[i]))
  }

  function DesiredGuids(desired: seq<DesiredLRP>): set<string> {
    set lrp | lrp in desired :: lrp.processGuid
  }

  function ActualGuids(lrps: seq<ActualLRP>): set<string> {
    set lrp | lrp in lrps :: lrp.processGuid
  }

  /** The last desired LRP of a guid decides; an app nobody desires has zero values. */
  function LastDesired(desired: seq<DesiredLRP>, guid: string): DesiredLRP {
    if desired == [] then DesiredLRP(guid, 0, NO_DETAILS, None)
    else if desired[|desired| - 1].processGuid == guid then desired[|desired| - 1]
    else LastDesired(desired[..|desired| - 1], guid)
  }

  /** An app's entry before its instances are sorted. */
  function UnsortedApp(guid: string, desired: seq<DesiredLRP>, lrps: seq<ActualLRP>): AppInfo {
    var lrp := LastDesired(desired, guid);
    AppInfo(guid, lrp.instances, CountAt(lrps, GuidOf(), guid, Running), lrp.details,
            Monitors.MonitorOf(lrp.monitor), Instances(OfGuid(lrps, guid)))
  }

  function ByIndex(): (InstanceInfo, InstanceInfo) -> bool {
    (a: InstanceInfo, b: InstanceInfo) => a.index <= b.index
  }

  /** The entry of an app: its instances are its LRPs, ordered by index. */
  ghost predicate IsApp(app: AppInfo, guid: string, desired: seq<DesiredLRP>, lrps: seq<ActualLRP>) {
    var unsorted := UnsortedApp(guid, desired, lrps);
    && app == unsorted.(instances := app.instances)
    && Sorted(app.instances, ByIndex())
    && multiset(app.instances) == multiset(unsorted.instances)
  }

  ghost predicate IsAppMap(apps: map<string, AppInfo>, desired: seq<DesiredLRP>, lrps: seq<ActualLRP>) {
    && apps.Keys == DesiredGuids(desired) + ActualGuids(lrps)
    && forall guid :: guid in apps ==> IsApp(apps[guid], guid, desired, lrps)
  }

  // ---------- mergeDesiredActualLRPs ----------

  ghost predicate Unsorted(apps: map<string, AppInfo>, desired: seq<DesiredLRP>, lrps: seq<ActualLRP>) {
    && apps.Keys == DesiredGuids(desired) + ActualGuids(lrps)
    && forall guid :: guid in apps ==> apps[guid] == UnsortedApp(guid, desired, lrps)
  }

  lemma DesiredGuidsSnoc(desired: seq<DesiredLRP>, lrp: DesiredLRP)
    ensures DesiredGuids(desired + [lrp]) == DesiredGuids(desired) + {lrp.processGuid}
  {
    assert lrp in desired + [lrp];
    assert forall x :: x in desired + [lrp] <==> x in desired || x == lrp;
  }

  lemma ActualGuidsSnoc(lrps: seq<ActualLRP>, lrp: ActualLRP)
    ensures ActualGuids(lrps + [lrp]) == ActualGuids(lrps) + {lrp.processGuid}
  {
    assert lrp in lrps + [lrp];
    assert forall x :: x in lrps + [lrp] <==> x in lrps || x == lrp;
  }

  lemma {:induction false} NotDesired(desired: seq<DesiredLRP>, guid: string)
    requires guid !in DesiredGuids(desired)
    ensures LastDesired(desired, guid) == DesiredLRP(guid, 0, NO_DETAILS, None)
  {
    if desired != [] {
      var n := |desired| - 1;
      assert desired == desired[..n] + [desired[n]];
      DesiredGuidsSnoc(desired[..n], desired[n]);
      NotDesired(desired[..n], guid);
    }
  }

  lemma {:induction false} NoInstances(lrps: seq<ActualLRP>, guid: string)
    requires guid !in ActualGuids(lrps)
    ensures OfGuid(lrps, guid) == [] && CountAt(lrps, GuidOf(), guid, Running) == 0
  {
    if lrps != [] {
      var n := |lrps| - 1;
      assert lrps == lrps[..n] + [lrps[n]];
      ActualGuidsSnoc(lrps[..n], lrps[n]);
      NoInstances(lrps[..n], guid);
    }
  }

  /** What one more LRP does to the entry of an app. */
  lemma UnsortedSnoc(guid: string, desired: seq<DesiredLRP>, lrps: seq<ActualLRP>, lrp: ActualLRP)
    ensures var before, after := UnsortedApp(guid, desired, lrps), UnsortedApp(guid, desired, lrps + [lrp]);
            after == if lrp.processGuid != guid then before
                     else before.(running := before.running + if lrp.state == Running then 1 else 0,
                                  instances := before.instances + [ToInstance(lrp)])
  {
    assert (lrps + [lrp])[..|lrps|] == lrps;
    assert OfGuid(lrps, guid) + [] == OfGuid(lrps, guid);
  }

  method DesiredApps(desired: seq<DesiredLRP>) returns (apps: map<string, AppInfo>)
    ensures Unsorted(apps, desired, [])
  {
    apps := map[];
    for i := 0 to |desired|
      invariant Unsorted(apps, desired[..i], [])
    {
      var lrp := desired[i];
      assert desired[..i + 1] == desired[..i] + [lrp];
      assert (desired[..i] + [lrp])[..i] == desired[..i];
      DesiredGuidsSnoc(desired[..i], lrp);
      var monitor := Monitors.ParseMonitor(lrp.monitor);
      apps := apps[lrp.processGuid := AppInfo(lrp.processGuid, lrp.instances, 0, lrp.details, monitor, [])];
    }
    assert desired[..|desired|] == desired;
  }

  /** A map whose one changed entry is right stands for one LRP more. */
  lemma AppMapSnoc(apps: map<string, AppInfo>, r: map<string, AppInfo>, desired: seq<DesiredLRP>,
                   lrps: seq<ActualLRP>, lrp: ActualLRP)
    requires Unsorted(apps, desired, lrps)
    requires r == apps[lrp.processGuid := UnsortedApp(lrp.processGuid, desired, lrps + [lrp])]
    ensures Unsorted(r, desired, lrps + [lrp])
  {
    ActualGuidsSnoc(lrps, lrp);
    forall guid | guid in r ensures r[guid] == UnsortedApp(guid, desired, lrps + [lrp]) {
      UnsortedSnoc(guid, desired, lrps, lrp);
    }
  }

  /** An app neither desired nor seen so far has the entry that the loop creates for it. */
  lemma NewApp(guid: string, desired: seq<DesiredLRP>, lrps: seq<ActualLRP>)
    requires guid !in DesiredGuids(desired) + ActualGuids(lrps)
    ensures UnsortedApp(guid, desired, lrps) == AppInfo(guid, 0, 0, NO_DETAILS, Monitors.EMPTY_MONITOR, [])
  {
    NotDesired(desired, guid);
    NoInstances(lrps, guid);
  }

  /** One actual LRP of the second loop. */
  method AddInstance(apps: map<string, AppInfo>, lrp: ActualLRP, ghost desired: seq<DesiredLRP>,
                     ghost lrps: seq<ActualLRP>)
    returns (r: map<string, AppInfo>)
    requires Unsorted(apps, desired, lrps)
    ensures Unsorted(r, desired, lrps + [lrp])
  {
    var guid := lrp.processGuid;
    r := apps;
    if guid !in r {
      NewApp(guid, desired, lrps);
      r := r[guid := AppInfo(guid, 0, 0, NO_DETAILS, Monitors.EMPTY_MONITOR, [])];
    }
    UnsortedSnoc(guid, desired, lrps, lrp);
    if lrp.state == Running {
      r := r[guid := r[guid].(running := r[guid].running + 1)];
    }
    var instance := InstanceInfo(lrp.instanceGuid, lrp.cellId, lrp.index, lrp.address, lrp.ports, lrp.state,
                                 lrp.since, lrp.placementError, lrp.crashCount, false, NO_METRICS);
    r := r[guid := r[guid].(instances := r[guid].instances + [instance])];
    assert r[guid] == UnsortedApp(guid, desired, lrps + [lrp]);
    assert r == apps[guid := UnsortedApp(guid, desired, lrps + [lrp])];
    AppMapSnoc(apps, r, desired, lrps, lrp);
  }

  /** The third loop: every app's instances sorted by index. */
  method SortInstances(apps: map<string, AppInfo>) returns (r: map<string, AppInfo>)
    ensures r.Keys == apps.Keys
    ensures forall guid :: guid in apps ==>
              && r[guid] == apps[guid].(instances := r[guid].instances)
              && Sorted(r[guid].instances, ByIndex()) && multiset(r[guid].instances) == multiset(apps[guid].instances)
  {
    r := apps;
    var rest := apps.Keys;
    while rest != {}
      invariant rest <= apps.Keys == r.Keys
      invariant forall guid :: guid in rest ==> r[guid] == apps[guid]
      invariant forall guid :: guid in apps.Keys - rest ==>
                  && r[guid] == apps[guid].(instances := r[guid].instances)
                  && Sorted(r[guid].instances, ByIndex())
                  && multiset(r[guid].instances) == multiset(apps[guid].instances)
      decreases rest
    {
      var guid :| guid in rest;
      var sorted := Sort(r[guid].instances, ByIndex());
      r := r[guid := r[guid].(instances := sorted)];
      rest := rest - {guid};
    }
  }

  /** mergeDesiredActualLRPs */
  method MergeDesiredActual(desired: seq<DesiredLRP>, lrps: seq<ActualLRP>) returns (apps: map<string, AppInfo>)
    ensures IsAppMap(apps, desired, lrps)
  {
    apps := DesiredApps(desired);
    for i := 0 to |lrps|
      invariant Unsorted(apps, desired, lrps[..i])
    {
      assert lrps[..i + 1] == lrps[..i] + [lrps[i]];
      apps := AddInstance(apps, lrps[i], desired, lrps[..i]);
    }
    assert lrps[..|lrps|] == lrps;
    apps := SortInstances(apps);
  }

  // ---------- ListApps ----------

  /** sort.Strings compares character by character. */
  predicate LexLe(a: string, b: string) {
    a == "" || (b != "" && (a[0] < b[0] || (a[0] == b[0] && LexLe(a[1..], b[1..]))))
  }

  lemma {:induction false} LexTotal(a: string, b: string)
    ensures LexLe(a, b) || LexLe(b, a)
    decreases |a|
  {
    if a != "" && b != "" && a[0] == b[0] {
      LexTotal(a[1..], b[1..]);
    }
  }

  lemma {:induction false} LexTransitive(a: string, b: string, c: string)
    requires LexLe(a, b) && LexLe(b, c)
    ensures LexLe(a, c)
    decreases |a|
  {
    if a != "" && b != "" && c != "" && a[0] == b[0] == c[0] {
      LexTransitive(a[1..], b[1..], c[1..]);
    }
  }

  function AppGuids(apps: seq<AppInfo>): (guids: seq<string>)
    ensures |guids| == |apps| && forall i :: 0 <= i < |apps| ==> guids[i] == apps[i].processGuid
  {
    seq(|apps|, i requires 0 <= i < |apps| => apps[i].processGuid)
  }

  /** An app list: one entry per desired or actual guid, in the order of the guids. */
  ghost predicate IsAppList(apps: seq<AppInfo>, desired: seq<DesiredLRP>, lrps: seq<ActualLRP>) {
    var guids := AppGuids(apps);
    && Distinct(guids)
    && (forall guid :: guid in guids <==> guid in DesiredGuids(desired) + ActualGuids(lrps))
    && (forall i :: 0 <= i < |apps| ==> IsApp(apps[i], guids[i], desired, lrps))
    && Sorted(guids, LexLe)
  }

  lemma LexPreorder()
    ensures Preorder(LexLe)
  {
    forall a, b ensures LexLe(a, b) || LexLe(b, a) {
      LexTotal(a, b);
    }
    forall a, b, c | LexLe(a, b) && LexLe(b, c) ensures LexLe(a, c) {
      LexTransitive(a, b, c);
    }
  }

  /** ListApps */
  method ListApps(desired: seq<DesiredLRP>, lrps: seq<ActualLRP>) returns (list: seq<AppInfo>)
    ensures IsAppList(list, desired, lrps)
  {
    var apps := MergeDesiredActual(desired, lrps);
    LexPreorder();
    var keys := Keys(apps.Keys);
    keys := Sort(keys, LexLe);
    SetOrder(keys, apps.Keys);
    list := [];
    for i := 0 to |keys|
      invariant |list| == i && forall j :: 0 <= j < i ==> keys[j] in apps && list[j] == apps[keys[j]]
    {
      assert keys[i] in keys;
      list := list + [apps[keys[i]]];
    }
    assert AppGuids(list) == keys;
  }

  /** RunningAppInstancesInfo, on the LRPs of one process guid. */
  method RunningAppInstancesInfo(instances: seq<ActualLRP>) returns (count: nat, placementError: bool)
    ensures count == CountState(instances, Running)
    ensures placementError <==> exists lrp :: lrp in instances && lrp.placementError != ""
  {
    count, placementError := 0, false;
    for i := 0 to |instances|
      invariant count == CountState(instances[..i], Running)
      invariant placementError <==> exists lrp :: lrp in instances[..i] && lrp.placementError != ""
    {
      assert instances[..i + 1] == instances[..i] + [instances[i]];
      if instances[i].state == Running {
        count := count + 1;
      }
      if instances[i].placementError != "" {
        placementError := true;
      }
    }
    assert instances[..|instances|] == instances;
  }

  // ---------- what a merged app says of the snapshot ----------

  /** The positions of the LRPs of a guid, in order. */
  lemma {:induction false} OfGuidPositions(lrps: seq<ActualLRP>, guid: string) returns (at: seq<nat>)
    ensures |at| == |OfGuid(lrps, guid)|
    ensures forall i :: 0 <= i < |at| ==> at[i] < |lrps| && OfGuid(lrps, guid)[i] == lrps[at[i]]
    ensures Distinct(at) && forall k: nat :: k in at <==> k < |lrps| && lrps[k].processGuid == guid
  {
    if lrps == [] {
      at := [];
    } else {
      var n := |lrps| - 1;
      var front := OfGuidPositions(lrps[..n], guid);
      at := front + if lrps[n].processGuid == guid then [n] else [];
      assert forall k: nat :: k in at <==> k in front || (k == n && lrps[n].processGuid == guid);
      assert n !in front;
    }
  }

  /** Two correspondences in turn. */
  lemma Composed(at: seq<nat>, positions: seq<nat>) returns (r: seq<nat>)
    requires IsBijection(at, |positions|) && Distinct(positions)
    ensures |r| == |positions| && Distinct(r) && forall k :: k in r <==> k in positions
    ensures forall i :: 0 <= i < |r| ==> at[i] < |positions| && r[i] == positions[at[i]]
  {
    r := seq(|at|, i requires 0 <= i < |at| => positions[at[i]]);
    forall k | k in positions ensures k in r {
      var j: nat :| j < |positions| && positions[j] == k;
      assert j in at;
      var i :| 0 <= i < |at| && at[i] == j;
      assert r[i] == k;
    }
    forall i, j | 0 <= i < j < |r| ensures r[i] != r[j] {
      assert at[i] != at[j];
      assert at[i] < at[j] || at[j] < at[i];
    }
  }

  /**
   The instances of an app stand for the LRPs of its guid, each once: instance i is LRP at[i], field by field
   and without metrics, and the instances stand in the order of their indices.
   */
  lemma InstancesAreLRPs(app: AppInfo, guid: string, desired: seq<DesiredLRP>, lrps: seq<ActualLRP>)
    returns (at: seq<nat>)
    requires IsApp(app, guid, desired, lrps)
    ensures |at| == |app.instances| && Distinct(at)
    ensures forall k: nat :: k in at <==> k < |lrps| && lrps[k].processGuid == guid
    ensures forall i :: 0 <= i < |at| ==>
              && at[i] < |lrps|
              && app.instances[i].instanceGuid == lrps[at[i]].instanceGuid
              && app.instances[i].cellId == lrps[at[i]].cellId
              && app.instances[i].index == lrps[at[i]].index
              && app.instances[i].ip == lrps[at[i]].address
              && app.instances[i].ports == lrps[at[i]].ports
              && app.instances[i].state == lrps[at[i]].state
              && app.instances[i].since == lrps[at[i]].since
              && app.instances[i].placementError == lrps[at[i]].placementError
              && app.instances[i].crashCount == lrps[at[i]].crashCount
              && !app.instances[i].hasMetrics
    ensures forall i, j :: 0 <= i < j < |app.instances| ==> app.instances[i].index <= app.instances[j].index
  {
    var mine := OfGuid(lrps, guid);
    var positions := OfGuidPositions(lrps, guid);
    var order := Correspondence(app.instances, Instances(mine));
    at := Composed(order, positions);
    forall i | 0 <= i < |at| ensures at[i] < |lrps| && app.instances[i] == ToInstance(lrps[at[i]]) {
      assert app.instances[i] == Instances(mine)[order[i]];
      assert mine[order[i]] == lrps[positions[order[i]]];
    }
    forall i, j | 0 <= i < j < |app.instances| ensures app.instances[i].index <= app.instances[j].index {
      assert ByIndex()(app.instances[i], app.instances[j]);
    }
  }

  /** The running count is the number of the guid's RUNNING LRPs. */
  lemma AppCounts(app: AppInfo, guid: string, desired: seq<DesiredLRP>, lrps: seq<ActualLRP>)
    requires IsApp(app, guid, desired, lrps)
    ensures app.running == |set k: nat | k < |lrps| && lrps[k].processGuid == guid && lrps[k].state == Running|
  {
    CountAtIsSize(lrps, GuidOf(), guid, Running);
    assert (set k: nat | k < |lrps| && GuidOf()(lrps[k]) == guid && lrps[k].state == Running)
        == (set k: nat | k < |lrps| && lrps[k].processGuid == guid && lrps[k].state == Running);
  }

  /** Desired LRP k of a guid is its last one. */
  predicate IsLastDesired(desired: seq<DesiredLRP>, k: nat, guid: string)
    requires k < |desired|
  {
    desired[k].processGuid == guid && forall l :: k < l < |desired| ==> desired[l].processGuid != guid
  }

  lemma {:induction false} LastDesiredAt(desired: seq<DesiredLRP>, k: nat, guid: string)
    requires k < |desired| && IsLastDesired(desired, k, guid)
    ensures LastDesired(desired, guid) == desired[k]
  {
    var n := |desired| - 1;
    if k < n {
      assert IsLastDesired(desired[..n], k, guid);
      LastDesiredAt(desired[..n], k, guid);
    }
  }

  /** The desired side of an app is its guid's last desired LRP, and zero when nobody desires it. */
  lemma AppDesired(app: AppInfo, guid: string, desired: seq<DesiredLRP>, lrps: seq<ActualLRP>)
    requires IsApp(app, guid, desired, lrps)
    ensures app.processGuid == guid
    ensures forall k: nat :: k < |desired| && IsLastDesired(desired, k, guid) ==>
              && app.desiredInstances == desired[k].instances && app.details == desired[k].details
              && app.monitor == Monitors.MonitorOf(desired[k].monitor)
    ensures (forall lrp :: lrp in desired ==> lrp.processGuid != guid) ==>
              && app.desiredInstances == 0 && app.monitor == Monitors.Monitor(0, "", "", [])
              && app.details == Details("", [], 0, 0, 0, 0, [], Routing.Routes([], []), "", "", "")
  {
    forall k: nat | k < |desired| && IsLastDesired(desired, k, guid)
      ensures LastDesired(desired, guid) == desired[k]
    {
      LastDesiredAt(desired, k, guid);
    }
    if forall lrp :: lrp in desired ==> lrp.processGuid != guid {
      NotDesired(desired, guid);
    }
  }

  /** An app is listed exactly when a desired or an actual LRP has its guid, and once. */
  lemma AppsListed(apps: seq<AppInfo>, desired: seq<DesiredLRP>, lrps: seq<ActualLRP>, guid: string)
    requires IsAppList(apps, desired, lrps)
    ensures (exists i :: 0 <= i < |apps| && apps[i].processGuid == guid)
            <==> (exists lrp :: lrp in desired && lrp.processGuid == guid)
                 || exists lrp :: lrp in lrps && lrp.processGuid == guid
    ensures forall i, j :: 0 <= i < j < |apps| ==> Before(apps[i].processGuid, apps[j].processGuid)
  {
    var guids := AppGuids(apps);
    assert guid in guids <==> guid in DesiredGuids(desired) + ActualGuids(lrps);
    assert forall i :: 0 <= i < |apps| ==> guids[i] == apps[i].processGuid;
    if exists i :: 0 <= i < |apps| && apps[i].processGuid == guid {
      var i :| 0 <= i < |apps| && apps[i].processGuid == guid;
      assert guids[i] in guids;
    }
    forall i, j | 0 <= i < j < |apps| ensures Before(guids[i], guids[j]) {
      assert LexLe(guids[i], guids[j]);
      LexIsBefore(guids[i], guids[j]);
    }
  }

  /** a is a proper prefix of b, or has the smaller character at the first difference. */
  ghost predicate Before(a: string, b: string) {
    a < b || exists k: nat :: k < |a| && k < |b| && a[..k] == b[..k] && a[k] < b[k]
  }

  lemma {:induction false} LexIsBefore(a: string, b: string)
    ensures LexLe(a, b) <==> a == b || Before(a, b)
    decreases |a|
  {
    if a == "" {
      assert a == b || a < b;
    } else if b != "" && a[0] == b[0] {
      LexIsBefore(a[1..], b[1..]);
      assert a == [a[0]] + a[1..] && b == [b[0]] + b[1..];
      if Before(a, b) {
        BeforeTail(a, b);
      } else if Before(a[1..], b[1..]) {
        BeforeCons(a, b);
      }
    } else if b != "" && a[0] < b[0] {
      assert a[..0] == b[..0];
    }
  }

  lemma BeforeTail(a: string, b: string)
    requires a != "" && b != "" && a[0] == b[0] && Before(a, b)
    ensures Before(a[1..], b[1..])
  {
    if !(a < b) {
      var k: nat :| k < |a| && k < |b| && a[..k] == b[..k] && a[k] < b[k];
      assert a[1..][..k - 1] == a[..k][1..] && b[1..][..k - 1] == b[..k][1..];
      assert a[1..][k - 1] < b[1..][k - 1];
    }
  }

  lemma BeforeCons(a: string, b: string)
    requires a != "" && b != "" && a[0] == b[0] && Before(a[1..], b[1..])
    ensures Before(a, b)
  {
    if a[1..] < b[1..] {
      assert a == [a[0]] + a[1..] && b == [b[0]] + b[1..];
    } else {
      var k: nat :| k < |a[1..]| && k < |b[1..]| && a[1..][..k] == b[1..][..k] && a[1..][k] < b[1..][k];
      assert a[..k + 1] == [a[0]] + a[1..][..k] && b[..k + 1] == [b[0]] + b[1..][..k];
      assert a[k + 1] < b[k + 1];
    }
  }

  // ---------- conservation ----------

  function SumRunningCells(infos: seq<CellInfo>): int {
    if infos == [] then 0 else infos[0].running + SumRunningCells(infos[1..])
  }

  function SumClaimedCells(infos: seq<CellInfo>): int {
    if infos == [] then 0 else infos[0].claimed + SumClaimedCells(infos[1..])
  }

  function SumRunningApps(apps: seq<AppInfo>): int {
    if apps == [] then 0 else apps[0].running + SumRunningApps(apps[1..])
  }

  lemma {:induction false} CellSums(infos: seq<CellInfo>, ids: seq<string>, lrps: seq<ActualLRP>)
    requires |ids| == |infos|
    requires forall i :: 0 <= i < |infos| ==>
               && infos[i].running == CountAt(lrps, CellOf(), ids[i], Running)
               && infos[i].claimed == CountAt(lrps, CellOf(), ids[i], Claimed)
    ensures SumRunningCells(infos) == SumAt(ids, lrps, CellOf(), Running)
    ensures SumClaimedCells(infos) == SumAt(ids, lrps, CellOf(), Claimed)
  {
    if infos != [] {
      CellSums(infos[1..], ids[1..], lrps);
    }
  }

  lemma {:induction false} AppSums(apps: seq<AppInfo>, guids: seq<string>, lrps: seq<ActualLRP>)
    requires |guids| == |apps|
    requires forall i :: 0 <= i < |apps| ==> apps[i].running == CountAt(lrps, GuidOf(), guids[i], Running)
    ensures SumRunningApps(apps) == SumAt(guids, lrps, GuidOf(), Running)
  {
    if apps != [] {
      AppSums(apps[1..], guids[1..], lrps);
    }
  }

  /** Every view of one snapshot accounts for exactly the RUNNING and the CLAIMED LRPs. */
  lemma SnapshotConservation(cells: seq<Cell>, desired: seq<DesiredLRP>, lrps: seq<ActualLRP>, infos: seq<CellInfo>,
                             apps: seq<AppInfo>)
    requires IsCellList(infos, cells, lrps) && IsAppList(apps, desired, lrps)
    ensures SumRunningCells(infos) == SumRunningApps(apps) == |set k: nat | k < |lrps| && lrps[k].state == Running|
    ensures SumClaimedCells(infos) == |set k: nat | k < |lrps| && lrps[k].state == Claimed|
  {
    CountStateIsSize(lrps, Running);
    CountStateIsSize(lrps, Claimed);
    var ids, guids := CellIds(infos), AppGuids(apps);
    CellSums(infos, ids, lrps);
    AppSums(apps, guids, lrps);
    forall lrp | lrp in lrps ensures lrp.processGuid in guids {
      assert lrp.processGuid in ActualGuids(lrps);
    }
    forall lrp | lrp in lrps && lrp.state != Unclaimed ensures lrp.cellId in ids {
      assert lrp.cellId in Active(lrps);
    }
    SumIsCount(ids, lrps, CellOf(), Running);
    SumIsCount(ids, lrps, CellOf(), Claimed);
    SumIsCount(guids, lrps, GuidOf(), Running);
  }

  /** An app's running count is what RunningAppInstancesInfo counts in the receptor's answer for its guid. */
  lemma {:induction false} CountOfGuid(lrps: seq<ActualLRP>, guid: string)
    ensures CountAt(lrps, GuidOf(), guid, Running) == CountState(OfGuid(lrps, guid), Running)
  {
    if lrps != [] {
      var n := |lrps| - 1;
      CountOfGuid(lrps[..n], guid);
      var front := OfGuid(lrps[..n], guid);
      if lrps[n].processGuid == guid {
        assert (front + [lrps[n]])[..|front|] == front;
      } else {
        assert front + [] == front;
      }
    }
  }

  /** No app has more running instances than instances, and the two agree when all of them run. */
  lemma RunningWithinInstances(app: AppInfo, guid: string, desired: seq<DesiredLRP>, lrps: seq<ActualLRP>)
    requires IsApp(app, guid, desired, lrps)
    ensures 0 <= app.running <= |app.instances|
    ensures app.running == |app.instances|
            <==> forall instance :: instance in app.instances ==> instance.state == Running
  {
    var mine := OfGuid(lrps, guid);
    CountOfGuid(lrps, guid);
    assert |multiset(app.instances)| == |multiset(Instances(mine))|;
    CountStateBound(mine);
    assert forall x :: x in app.instances <==> x in multiset(app.instances);
    assert forall x :: x in Instances(mine) <==> x in multiset(Instances(mine));
    if forall instance :: instance in app.instances ==> instance.state == Running {
      forall i | 0 <= i < |mine| ensures mine[i].state == Running {
        assert Instances(mine)[i] in Instances(mine);
      }
    }
  }

  lemma {:induction false} CountStateBound(lrps: seq<ActualLRP>)
    ensures CountState(lrps, Running) <= |lrps|
    ensures CountState(lrps, Running) == |lrps| <==> forall i :: 0 <= i < |lrps| ==> lrps[i].state == Running
  {
    if lrps != [] {
      var n := |lrps| - 1;
      CountStateBound(lrps[..n]);
      assert forall i :: 0 <= i < n ==> lrps[..n][i] == lrps[i];
    }
  }

  // ---------- metrics ----------

  datatype ContainerMetric = ContainerMetric(instanceIndex: int, cpu: real, memory: nat, disk: nat)

  /** The last metric reported for an index. */
  function LastMetric(reports: seq<ContainerMetric>, index: int): Option<Metrics> {
    if reports == [] then None
    else
      var last := reports[|reports| - 1];
      if last.instanceIndex == index then Some(Metrics(last.cpu, last.memory, last.disk))
      else LastMetric(reports[..|reports| - 1], index)
  }

  /** Is i the last position with its index? */
  predicate OwnsIndex(instances: seq<InstanceInfo>, i: nat)
    requires i < |instances|
  {
    forall j :: i < j < |instances| ==> instances[j].index != instances[i].index
  }

  function WithMetric(instance: InstanceInfo, metric: Option<Metrics>): InstanceInfo {
    if metric.None? then instance else instance.(hasMetrics := true, metrics := metric.value)
  }

  ghost predicate IsIndexMap(indexMap: map<int, nat>, instances: seq<InstanceInfo>) {
    && (forall i :: 0 <= i < |instances| ==> instances[i].index in indexMap)
    && (forall index :: index in indexMap ==>
          && indexMap[index] < |instances| && instances[indexMap[index]].index == index
          && OwnsIndex(instances, indexMap[index]))
  }

  method BuildIndexMap(instances: seq<InstanceInfo>) returns (indexMap: map<int, nat>)
    ensures IsIndexMap(indexMap, instances)
  {
    indexMap := map[];
    for i := 0 to |instances|
      invariant forall j :: 0 <= j < i ==> instances[j].index in indexMap && j <= indexMap[instances[j].index]
      invariant forall index :: index in indexMap ==> indexMap[index] < i && instances[indexMap[index]].index == index
    {
      indexMap := indexMap[instances[i].index := i];
    }
  }

  /** The metrics join of AppStatus, written into the instances in place. */
  method JoinMetrics(instances: array<InstanceInfo>, reports: seq<ContainerMetric>)
    modifies instances
    ensures forall i :: 0 <= i < instances.Length ==>
              instances[i] == if OwnsIndex(old(instances[..]), i)
                              then WithMetric(old(instances[i]), LastMetric(reports, old(instances[i].index)))
                              else old(instances[i])
  {
    ghost var before := instances[..];
    var indexMap := BuildIndexMap(instances[..]);
    for k := 0 to |reports|
      invariant forall i :: 0 <= i < instances.Length ==>
                  instances[i] == if OwnsIndex(before, i)
                                  then WithMetric(before[i], LastMetric(reports[..k], before[i].index))
                                  else before[i]
    {
      var report := reports[k];
      assert reports[..k + 1][..k] == reports[..k];
      if report.instanceIndex !in indexMap {
        continue;
      }
      var i := indexMap[report.instanceIndex];
      instances[i] := instances[i].(hasMetrics := true, metrics := Metrics(report.cpu, report.memory, report.disk));
    }
    assert reports[..|reports|] == reports;
  }

  // ---------- AppStatus ----------

  /** An answer of the receptor or the metrics stream. */
  datatype Answer<+T> = Got(value: T) | NotFound | Failed

  datatype Status = Found(app: AppInfo) | AppNotFound | ReceptorError

  /** An app's entry with the metrics that were reported for its instances. */
  ghost predicate Joined(app: AppInfo, merged: AppInfo, reports: seq<ContainerMetric>) {
    && app == merged.(instances := app.instances)
    && |app.instances| == |merged.instances|
    && forall i :: 0 <= i < |app.instances| ==>
         app.instances[i] == if OwnsIndex(merged.instances, i)
                             then WithMetric(merged.instances[i], LastMetric(reports, merged.instances[i].index))
                             else merged.instances[i]
  }

  /** The desired side AppStatus merges: the zero response when the receptor does not know the app. */
  function DesiredAnswer(desired: Answer<DesiredLRP>): seq<DesiredLRP> {
    if desired.Got? then [desired.value] else [DesiredLRP("", 0, NO_DETAILS, None)]
  }

  /** AppStatus */
  method AppStatus(name: string, desired: Answer<DesiredLRP>, actual: Answer<seq<ActualLRP>>,
                   metrics: Answer<seq<ContainerMetric>>)
    returns (status: Status)
    ensures status.ReceptorError? <==> desired.Failed? || !actual.Got?
    ensures !status.ReceptorError? ==>
              (status.AppNotFound? <==> && (if desired.Got? then desired.value.processGuid != name else name != "")
                                        && forall lrp :: lrp in actual.value ==> lrp.processGuid != name)
    ensures status.Found? ==>
              exists merged :: IsApp(merged, name, DesiredAnswer(desired), actual.value)
                               && Joined(status.app, merged, if metrics.Got? then metrics.value else [])
  {
    if desired.Failed? || !actual.Got? {
      return ReceptorError;
    }
    var apps := MergeDesiredActual(DesiredAnswer(desired), actual.value);
    if name !in apps {
      return AppNotFound;
    }
    var app := apps[name];
    if !metrics.Got? {
      assert Joined(app, app, []);
      return Found(app);
    }
    var instances := new InstanceInfo[|app.instances|](i requires 0 <= i < |app.instances| => app.instances[i]);
    assert instances[..] == app.instances;
    JoinMetrics(instances, metrics.value);
    status := Found(app.(instances := instances[..]));
    assert Joined(status.app, app, metrics.value);
  }

  /** Report k is the last one for an index. */
  predicate IsLastReport(reports: seq<ContainerMetric>, k: nat, index: int)
    requires k < |reports|
  {
    reports[k].instanceIndex == index && forall l :: k < l < |reports| ==> reports[l].instanceIndex != index
  }

  lemma {:induction false} LastMetricAt(reports: seq<ContainerMetric>, k: nat, index: int)
    requires k < |reports| && IsLastReport(reports, k, index)
    ensures LastMetric(reports, index) == Some(Metrics(reports[k].cpu, reports[k].memory, reports[k].disk))
  {
    var n := |reports| - 1;
    if k < n {
      assert IsLastReport(reports[..n], k, index);
      LastMetricAt(reports[..n], k, index);
    }
  }

  /**
   What AppStatus adds to instance i of the merged app: the measures of the last report for its index, when
   there is one and no later instance has that index, and otherwise nothing.
   */
  lemma MetricsOfInstance(merged: AppInfo, app: AppInfo, reports: seq<ContainerMetric>, i: nat)
    requires Joined(app, merged, reports) && i < |merged.instances|
    ensures app.instances[i] == merged.instances[i].(hasMetrics := app.instances[i].hasMetrics,
                                                     metrics := app.instances[i].metrics)
    ensures forall k: nat :: k < |reports| && IsLastReport(reports, k, merged.instances[i].index)
                             && OwnsIndex(merged.instances, i) ==>
              && app.instances[i].hasMetrics && app.instances[i].metrics.cpu == reports[k].cpu
              && app.instances[i].metrics.memory == reports[k].memory
              && app.instances[i].metrics.disk == reports[k].disk
    ensures (forall report :: report in reports ==> report.instanceIndex != merged.instances[i].index)
            || !OwnsIndex(merged.instances, i)
            ==> app.instances[i] == merged.instances[i]
  {
    var index := merged.instances[i].index;
    LastMetricExists(reports, index);
    forall k: nat | k < |reports| && IsLastReport(reports, k, index)
      ensures LastMetric(reports, index) == Some(Metrics(reports[k].cpu, reports[k].memory, reports[k].disk))
    {
      LastMetricAt(reports, k, index);
    }
  }

  ghost predicate DistinctIndices(lrps: seq<ActualLRP>) {
    forall i, j :: 0 <= i < j < |lrps| ==> lrps[i].index != lrps[j].index
  }

  lemma {:induction false} OnlyOnce<T>(s: seq<T>, x: T)
    requires Distinct(s)
    ensures multiset(s)[x] <= 1
  {
    if s != [] {
      var front, last := s[..|s| - 1], s[|s| - 1];
      assert s == front + [last];
      OnlyOnce(front, x);
      assert x == last ==> x !in multiset(front);
    }
  }

  lemma TwiceIsTwo<T>(s: seq<T>, i: nat, j: nat)
    requires i < j < |s| && s[i] == s[j]
    ensures multiset(s)[s[i]] >= 2
  {
    assert s == s[..j] + s[j..];
    assert s[i] == s[..j][i] && s[j] == s[j..][0];
    assert s[i] in s[..j] && s[i] in s[j..];
  }

  /** However sorted, the instances of LRPs with distinct indices have distinct indices, and no metrics yet. */
  lemma MergedInstances(merged: AppInfo, guid: string, desired: seq<DesiredLRP>, lrps: seq<ActualLRP>)
    requires IsApp(merged, guid, desired, lrps)
    ensures forall instance :: instance in merged.instances ==> !instance.hasMetrics
    ensures DistinctIndices(OfGuid(lrps, guid)) ==>
              forall i, j :: 0 <= i < j < |merged.instances| ==> merged.instances[i].index != merged.instances[j].index
  {
    var own, instances := Instances(OfGuid(lrps, guid)), merged.instances;
    forall instance | instance in instances ensures !instance.hasMetrics && instance in own {
      assert instance in multiset(instances);
      assert instance in multiset(own);
    }
    if DistinctIndices(OfGuid(lrps, guid)) {
      forall i, j | 0 <= i < j < |instances| ensures instances[i].index != instances[j].index {
        if instances[i].index == instances[j].index {
          SameIndexTwice(own, instances, i, j);
          assert false;
        }
      }
    }
  }

  lemma SameIndexTwice(own: seq<InstanceInfo>, instances: seq<InstanceInfo>, i: nat, j: nat)
    requires forall k, l :: 0 <= k < l < |own| ==> own[k].index != own[l].index
    requires multiset(own) == multiset(instances) && i < j < |instances|
    ensures instances[i].index != instances[j].index
  {
    var a, b := instances[i], instances[j];
    assert a in multiset(instances) && b in multiset(instances);
    assert a in multiset(own) && b in multiset(own);
    var k :| 0 <= k < |own| && own[k] == a;
    var l :| 0 <= l < |own| && own[l] == b;
    if a == b {
      TwiceIsTwo(instances, i, j);
      OnlyOnce(own, a);
      assert false;
    }
  }

  /**
   What AppStatus shows for an app whose LRPs have distinct indices: each instance of the merged app keeps
   its fields and carries the measures of the last report for its own index, or none; the instances are in
   the order of their indices.
   */
  lemma MetricsJoin(name: string, desired: seq<DesiredLRP>, lrps: seq<ActualLRP>, merged: AppInfo, app: AppInfo,
                    reports: seq<ContainerMetric>)
    requires IsApp(merged, name, desired, lrps) && Joined(app, merged, reports)
    requires DistinctIndices(OfGuid(lrps, name))
    ensures app == merged.(instances := app.instances) && |app.instances| == |merged.instances|
    ensures forall i :: 0 <= i < |app.instances| ==>
              app.instances[i] == merged.instances[i].(hasMetrics := app.instances[i].hasMetrics,
                                                       metrics := app.instances[i].metrics)
    ensures forall i, k: nat :: 0 <= i < |app.instances| && k < |reports|
                                && IsLastReport(reports, k, app.instances[i].index) ==>
              app.instances[i].metrics == Metrics(reports[k].cpu, reports[k].memory, reports[k].disk)
    ensures forall i :: 0 <= i < |app.instances| ==>
              (app.instances[i].hasMetrics
               <==> exists report :: report in reports && report.instanceIndex == app.instances[i].index)
    ensures forall i, j :: 0 <= i < j < |app.instances| ==> app.instances[i].index < app.instances[j].index
  {
    MergedInstances(merged, name, desired, lrps);
    forall i | 0 <= i < |app.instances|
      ensures app.instances[i] == WithMetric(merged.instances[i], LastMetric(reports, merged.instances[i].index))
      ensures app.instances[i].hasMetrics
              <==> exists report :: report in reports && report.instanceIndex == app.instances[i].index
      ensures app.instances[i].index == merged.instances[i].index
    {
      assert merged.instances[i] in merged.instances;
      LastMetricExists(reports, merged.instances[i].index);
    }
    forall i, k: nat | 0 <= i < |app.instances| && k < |reports| && IsLastReport(reports, k, app.instances[i].index)
      ensures app.instances[i].metrics == Metrics(reports[k].cpu, reports[k].memory, reports[k].disk)
    {
      LastMetricAt(reports, k, app.instances[i].index);
    }
    forall i, j | 0 <= i < j < |app.instances| ensures app.instances[i].index < app.instances[j].index {
      assert ByIndex()(merged.instances[i], merged.instances[j]);
    }
  }

  lemma {:induction false} LastMetricExists(reports: seq<ContainerMetric>, index: int)
    ensures LastMetric(reports, index).Some? <==> exists report :: report in reports && report.instanceIndex == index
  {
    if reports != [] {
      var n := |reports| - 1;
      LastMetricExists(reports[..n], index);
      assert reports == reports[..n] + [reports[n]];
      assert reports[n] in reports;
    }
  }

  /** A report for another index, anywhere in the stream, leaves an instance's metric unchanged. */
  lemma {:induction false} OtherReportsIgnored(a: seq<ContainerMetric>, other: ContainerMetric,
                                               b: seq<ContainerMetric>, index: int)
    requires other.instanceIndex != index
    ensures LastMetric(a + [other] + b, index) == LastMetric(a + b, index)
    decreases b
  {
    var longer, shorter := a + [other] + b, a + b;
    if b == [] {
      assert longer[..|longer| - 1] == a && shorter == a;
    } else {
      assert longer[..|longer| - 1] == a + [other] + b[..|b| - 1];
      assert shorter[..|shorter| - 1] == a + b[..|b| - 1];
      OtherReportsIgnored(a, other, b[..|b| - 1], index);
    }
  }
}
