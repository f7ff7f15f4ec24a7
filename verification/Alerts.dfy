/** The NEW-app latch: what one read of a device means, and the statements that keep the alert rows.
    Each database statement is one atomic step on the rows. */
module Alerts {
  import opened Prelude
  import opened Documents

  const NEW_APP := "new_app"
  const HIGH := "high"
  const APP_GONE := "app_gone"
  const DEVICE_DEPARTED := "device_departed"

  type DeviceId = nat
  type RunId = Option<nat>

  datatype InstalledApp = InstalledApp(hash: Option<string>, name: string, bundle: string)

  datatype Alert = Alert(
    kind: string, level: string, device: DeviceId, app: string, name: string, bundle: string,
    openedAt: Instant, openedRun: RunId,
    closedAt: Option<Instant>, closedRun: RunId, reason: Option<string>)

  datatype LatchDelta = LatchDelta(toOpen: set<string>, departed: set<string>)

  // --- the decision ------------------------------------------------------------------------

  predicate Priming(previous: set<string>, deviceIsNew: bool) {
    deviceIsNew || previous == {}
  }

  function Delta(previous: set<string>, current: set<string>, deviceIsNew: bool): LatchDelta {
    LatchDelta(if Priming(previous, deviceIsNew) then {} else current - previous, previous - current)
  }

  predicate HasHash(row: InstalledApp) {
    row.hash.Some? && row.hash.value != ""
  }

  /** The identities a read found. */
  function Identities(found: seq<InstalledApp>): set<string> {
    set i | 0 <= i < |found| && HasHash(found[i]) :: found[i].hash.value
  }

  lemma {:induction false} IdentitiesOneMore(found: seq<InstalledApp>, i: nat)
    requires i < |found|
    ensures Identities(found[..i + 1]) == Identities(found[..i]) + if HasHash(found[i]) then {found[i].hash.value} else {}
    ensures forall j :: 0 <= j < i && HasHash(found[j]) ==> found[j].hash.value in Identities(found[..i])
  {
    assert found[..i + 1] == found[..i] + [found[i]];
    forall j | 0 <= j < i && HasHash(found[j])
      ensures found[j].hash.value in Identities(found[..i])
    {
      assert found[..i][j] == found[j];
    }
  }

  predicate IsFirst(found: seq<InstalledApp>, i: nat)
    requires i < |found|
  {
    HasHash(found[i]) && forall j :: 0 <= j < i ==> found[j].hash != found[i].hash
  }

  /** `current_by_hash`: of several builds of one identity the first row is kept. */
  method CurrentByHash(found: seq<InstalledApp>) returns (byHash: map<string, InstalledApp>)
    ensures byHash.Keys == Identities(found)
    ensures forall i :: 0 <= i < |found| && IsFirst(found, i) ==> byHash[found[i].hash.value] == found[i]
  {
    byHash := map[];
    for i := 0 to |found|
      invariant byHash.Keys == Identities(found[..i])
      invariant forall j :: 0 <= j < i && IsFirst(found, j) ==> byHash[found[j].hash.value] == found[j]
    {
      var row := found[i];
      IdentitiesOneMore(found, i);
      if HasHash(row) && row.hash.value !in byHash {
        byHash := byHash[row.hash.value := row];
      }
    }
    assert found[..|found|] == found;
  }

  // --- the statements ----------------------------------------------------------------------

  predicate Open(row: Alert) {
    row.closedAt == None
  }

  predicate IsLatch(row: Alert, device: DeviceId, app: string) {
    Open(row) && row.kind == NEW_APP && row.device == device && row.app == app
  }

  predicate Latched(rows: seq<Alert>, device: DeviceId, app: string) {
    exists i :: 0 <= i < |rows| && IsLatch(rows[i], device, app)
  }

  /** What an opened row says of its app. */
  datatype Facts = Facts(name: string, bundle: string)

  function Fresh(device: DeviceId, app: string, facts: Facts, run: RunId, now: Instant): Alert {
    Alert(NEW_APP, HIGH, device, app, facts.name, facts.bundle, now, run, None, None, None)
  }

  /** `INSERT ... ON CONFLICT DO NOTHING` of the first `n` apps. */
  function Inserted(
    rows: seq<Alert>, device: DeviceId, apps: seq<string>, facts: map<string, Facts>, run: RunId, now: Instant,
    n: nat): seq<Alert>
    requires n <= |apps| && forall app :: app in apps ==> app in facts
  {
    if n == 0 then rows
    else
      var before := Inserted(rows, device, apps, facts, run, now, n - 1);
      if Latched(before, device, apps[n - 1]) then before
      else before + [Fresh(device, apps[n - 1], facts[apps[n - 1]], run, now)]
  }

  function Closed(row: Alert, run: RunId, at: Instant, reason: string): Alert {
    row.(closedAt := Some(at), closedRun := run, reason := Some(reason))
  }

  predicate IsGone(row: Alert, device: DeviceId, departed: set<string>) {
    row.device == device && row.kind == NEW_APP && Open(row) && row.app in departed
  }

  function CloseGone(rows: seq<Alert>, device: DeviceId, departed: set<string>, run: RunId, now: Instant): seq<Alert> {
    seq(|rows|, i requires 0 <= i < |rows| =>
      if IsGone(rows[i], device, departed) then Closed(rows[i], run, now, APP_GONE) else rows[i])
  }

  predicate IsDeparted(row: Alert, devices: set<DeviceId>) {
    Open(row) && row.device in devices
  }

  function CloseDeparted(rows: seq<Alert>, devices: set<DeviceId>, run: RunId, at: Instant): seq<Alert> {
    seq(|rows|, i requires 0 <= i < |rows| =>
      if IsDeparted(rows[i], devices) then Closed(rows[i], run, at, DEVICE_DEPARTED) else rows[i])
  }

  predicate IsExpired(row: Alert, cutoff: Instant) {
    row.closedAt.Some? && row.closedAt.value < cutoff
  }

  /** `DELETE` of the expired among the first `n` rows. */
  function Purged(rows: seq<Alert>, cutoff: Instant, n: nat): seq<Alert>
    requires n <= |rows|
  {
    if n == 0 then []
    else
      var kept := Purged(rows, cutoff, n - 1);
      if IsExpired(rows[n - 1], cutoff) then kept else kept + [rows[n - 1]]
  }

  /** What an identity found is said to be, in the first row that has it. */
  function FactsOf(found: seq<InstalledApp>, app: string): Facts
    requires app in Identities(found)
  {
    var i := FirstWith(found, (row: InstalledApp) => row.hash, Some(app), |found|);
    Facts(found[i].name, found[i].bundle)
  }

  function AllFacts(found: seq<InstalledApp>): (facts: map<string, Facts>)
    ensures facts.Keys == Identities(found)
  {
    map app | app in Identities(found) :: FactsOf(found, app)
  }

  /** One read of a device, in its two statements. */
  function Synced(
    rows: seq<Alert>, device: DeviceId, delta: LatchDelta, facts: map<string, Facts>, run: RunId,
    now: Instant): seq<Alert>
    requires delta.toOpen <= facts.Keys
  {
    var apps := Sorted(delta.toOpen);
    CloseGone(Inserted(rows, device, apps, facts, run, now, |apps|), device, delta.departed, run, now)
  }

  function FactsIn(byHash: map<string, InstalledApp>): map<string, Facts> {
    map app | app in byHash :: Facts(byHash[app].name, byHash[app].bundle)
  }

  lemma {:induction false} FactsAreFirst(found: seq<InstalledApp>, byHash: map<string, InstalledApp>)
    requires byHash.Keys == Identities(found)
    requires forall i :: 0 <= i < |found| && IsFirst(found, i) ==> byHash[found[i].hash.value] == found[i]
    ensures FactsIn(byHash) == AllFacts(found)
  {
    forall app | app in byHash ensures FactsOf(found, app) == Facts(byHash[app].name, byHash[app].bundle) {
      var i := FirstWith(found, (row: InstalledApp) => row.hash, Some(app), |found|);
      assert IsFirst(found, i);
    }
  }

  /** The alerts table. */
  class AlertTable {
    var rows: seq<Alert>

    constructor ()
      ensures rows == []
    {
      rows := [];
    }

    /** The insert, one value at a time: a value that meets an open row is dropped. */
    method InsertLatches(device: DeviceId, apps: seq<string>, facts: map<string, Facts>, run: RunId, now: Instant)
      requires forall app :: app in apps ==> app in facts
      modifies this
      ensures rows == Inserted(old(rows), device, apps, facts, run, now, |apps|)
    {
      for i := 0 to |apps|
        invariant rows == Inserted(old(rows), device, apps, facts, run, now, i)
      {
        if !Latched(rows, device, apps[i]) {
          rows := rows + [Fresh(device, apps[i], facts[apps[i]], run, now)];
        }
      }
    }

    method SyncNewAppLatches(
      device: DeviceId, previous: set<string>, found: seq<InstalledApp>, deviceIsNew: bool, run: RunId, now: Instant)
      returns (delta: LatchDelta)
      modifies this
      ensures delta == Delta(previous, Identities(found), deviceIsNew)
      ensures rows == Synced(old(rows), device, delta, AllFacts(found), run, now)
    {
      var current := CurrentByHash(found);
      FactsAreFirst(found, current);
      delta := Delta(previous, current.Keys, deviceIsNew);
      ActOn(device, delta, FactsIn(current), run, now);
    }

    /** The two statements, each only where there is something for it to do. */
    method ActOn(device: DeviceId, delta: LatchDelta, facts: map<string, Facts>, run: RunId, now: Instant)
      requires delta.toOpen <= facts.Keys
      modifies this
      ensures rows == Synced(old(rows), device, delta, facts, run, now)
    {
      if delta.toOpen != {} {
        InsertLatches(device, Sorted(delta.toOpen), facts, run, now);
      }
      if delta.departed != {} {
        rows := CloseGone(rows, device, delta.departed, run, now);
      } else {
        assert CloseGone(rows, device, {}, run, now) == rows;
      }
    }

    method CloseDepartedDeviceLatches(departed: set<DeviceId>, run: RunId, at: Instant) returns (count: nat)
      modifies this
      ensures rows == CloseDeparted(old(rows), departed, run, at)
      ensures |rows| == |old(rows)| && count == |Changed(old(rows), rows, |rows|)|
    {
      OpenCountIsChanged(rows, CloseDeparted(rows, departed, run, at), departed, run, at, |rows|);
      count := 0;
      var after: seq<Alert> := [];
      for i := 0 to |rows|
        invariant after == CloseDeparted(rows, departed, run, at)[..i]
        invariant count == OpenCount(rows, i, departed)
      {
        if IsDeparted(rows[i], departed) {
          after := after + [Closed(rows[i], run, at, DEVICE_DEPARTED)];
          count := count + 1;
        } else {
          after := after + [rows[i]];
        }
      }
      assert after == CloseDeparted(rows, departed, run, at);
      rows := after;
    }

    method PurgeClosedAlerts(retentionDays: int, now: Instant) returns (count: nat)
      modifies this
      ensures rows == Purged(old(rows), now - retentionDays * DAY, |old(rows)|)
      ensures count == |old(rows)| - |rows|
    {
      var cutoff := now - retentionDays * DAY;
      var kept: seq<Alert> := [];
      count := 0;
      for i := 0 to |rows|
        invariant kept == Purged(rows, cutoff, i) && count == i - |kept|
      {
        if IsExpired(rows[i], cutoff) {
          count := count + 1;
        } else {
          kept := kept + [rows[i]];
        }
      }
      rows := kept;
    }
  }

  /** The open rows of some devices, among the first `n`. */
  function OpenCount(rows: seq<Alert>, n: nat, devices: set<DeviceId>): nat
    requires n <= |rows|
  {
    if n == 0 then 0 else OpenCount(rows, n - 1, devices) + if IsDeparted(rows[n - 1], devices) then 1 else 0
  }

  /** The places among the first `n` whose row is not what it was. */
  function Changed(before: seq<Alert>, after: seq<Alert>, n: nat): set<nat>
    requires n <= |before| && n <= |after|
  {
    set i | 0 <= i < n && after[i] != before[i]
  }

  lemma {:induction false} OpenCountIsChanged(
    rows: seq<Alert>, after: seq<Alert>, devices: set<DeviceId>, run: RunId, at: Instant, n: nat)
    requires n <= |rows| && after == CloseDeparted(rows, devices, run, at)
    ensures OpenCount(rows, n, devices) == |Changed(rows, after, n)|
  {
    if n > 0 {
      OpenCountIsChanged(rows, after, devices, run, at, n - 1);
      assert Changed(rows, after, n)
          == Changed(rows, after, n - 1) + if IsDeparted(rows[n - 1], devices) then {n - 1} else {};
    }
  }
}
