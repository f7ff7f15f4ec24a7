/** What the latch rows mean over whole runs: the guarantees that hold whatever order the statements
    land in, and what is open as a matter of a device's history. */
module LatchHistory {
  import opened Prelude
  import opened Documents
  import opened Alerts

  // --- any interleaving of statements ------------------------------------------------------

  /** One committed statement, from any of the writers. */
  datatype Statement =
    | InsertOpen(device: DeviceId, apps: seq<string>, facts: map<string, Facts>, run: RunId, now: Instant)
    | UpdateGone(device: DeviceId, departed: set<string>, run: RunId, now: Instant)
    | UpdateDeparted(devices: set<DeviceId>, run: RunId, at: Instant)
    | DeleteClosed(cutoff: Instant)

  predicate Described(statement: Statement) {
    statement.InsertOpen? ==> forall app :: app in statement.apps ==> app in statement.facts
  }

  function Execute(rows: seq<Alert>, statement: Statement): seq<Alert>
    requires Described(statement)
  {
    match statement
    case InsertOpen(device, apps, facts, run, now) => Inserted(rows, device, apps, facts, run, now, |apps|)
    case UpdateGone(device, departed, run, now) => CloseGone(rows, device, departed, run, now)
    case UpdateDeparted(devices, run, at) => CloseDeparted(rows, devices, run, at)
    case DeleteClosed(cutoff) => Purged(rows, cutoff, |rows|)
  }

  function ExecuteAll(rows: seq<Alert>, statements: seq<Statement>, n: nat): seq<Alert>
    requires n <= |statements| && forall i :: 0 <= i < |statements| ==> Described(statements[i])
  {
    if n == 0 then rows else Execute(ExecuteAll(rows, statements, n - 1), statements[n - 1])
  }

  predicate SameLatch(a: Alert, b: Alert) {
    a.kind == b.kind && a.device == b.device && a.app == b.app
  }

  /** No two open rows for one kind, device and app. */
  predicate OneOpen(rows: seq<Alert>) {
    forall i, j :: 0 <= i < j < |rows| && Open(rows[i]) && Open(rows[j]) ==> !SameLatch(rows[i], rows[j])
  }

  /** A close reason on exactly the closed rows. */
  predicate Reasoned(rows: seq<Alert>) {
    forall i :: 0 <= i < |rows| ==> (rows[i].closedAt.Some? <==> rows[i].reason.Some?)
  }

  lemma {:induction false} InsertKeeps(
    rows: seq<Alert>, device: DeviceId, apps: seq<string>, facts: map<string, Facts>, run: RunId, now: Instant, n: nat)
    requires n <= |apps| && forall app :: app in apps ==> app in facts
    requires OneOpen(rows) && Reasoned(rows)
    ensures OneOpen(Inserted(rows, device, apps, facts, run, now, n))
    ensures Reasoned(Inserted(rows, device, apps, facts, run, now, n))
  {
    if n > 0 {
      InsertKeeps(rows, device, apps, facts, run, now, n - 1);
      var before := Inserted(rows, device, apps, facts, run, now, n - 1);
      var row := Fresh(device, apps[n - 1], facts[apps[n - 1]], run, now);
      if !Latched(before, device, apps[n - 1]) {
        forall i | 0 <= i < |before| && Open(before[i]) ensures !SameLatch(before[i], row) {
          assert !IsLatch(before[i], device, apps[n - 1]);
        }
      }
    }
  }

  /** The places among the first `n` rows of those a purge keeps. */
  function KeptPlaces(rows: seq<Alert>, cutoff: Instant, n: nat): (places: seq<nat>)
    requires n <= |rows|
    ensures forall k :: 0 <= k < |places| ==> places[k] < n
  {
    if n == 0 then []
    else KeptPlaces(rows, cutoff, n - 1) + if IsExpired(rows[n - 1], cutoff) then [] else [n - 1]
  }

  lemma {:induction false} IsKept(rows: seq<Alert>, cutoff: Instant, n: nat, i: nat)
    requires i < n <= |rows|
    ensures i in KeptPlaces(rows, cutoff, n) <==> !IsExpired(rows[i], cutoff)
  {
    if i < n - 1 {
      IsKept(rows, cutoff, n - 1, i);
    }
  }

  lemma {:induction false} KeptInOrder(rows: seq<Alert>, cutoff: Instant, n: nat)
    requires n <= |rows|
    ensures var places := KeptPlaces(rows, cutoff, n);
            && |places| == |Purged(rows, cutoff, n)|
            && (forall k :: 0 <= k < |places| ==> Purged(rows, cutoff, n)[k] == rows[places[k]])
            && (forall k, l :: 0 <= k < l < |places| ==> places[k] < places[l])
  {
    if n > 0 {
      KeptInOrder(rows, cutoff, n - 1);
    }
  }

  /** A purge keeps rows that were there, in order, and exactly those that had not expired. */
  lemma {:induction false} PurgedIsPart(rows: seq<Alert>, cutoff: Instant, n: nat) returns (origin: seq<nat>)
    requires n <= |rows|
    ensures |origin| == |Purged(rows, cutoff, n)|
    ensures forall i :: 0 <= i < |origin| ==> origin[i] < n && Purged(rows, cutoff, n)[i] == rows[origin[i]]
    ensures forall i, j :: 0 <= i < j < |origin| ==> origin[i] < origin[j]
    ensures forall i: nat :: i < n ==> (i in origin <==> !IsExpired(rows[i], cutoff))
  {
    origin := KeptPlaces(rows, cutoff, n);
    KeptInOrder(rows, cutoff, n);
    forall i: nat | i < n
      ensures i in origin <==> !IsExpired(rows[i], cutoff)
    {
      IsKept(rows, cutoff, n, i);
    }
  }

  lemma {:induction false} StatementKeeps(rows: seq<Alert>, statement: Statement)
    requires Described(statement) && OneOpen(rows) && Reasoned(rows)
    ensures OneOpen(Execute(rows, statement)) && Reasoned(Execute(rows, statement))
  {
    match statement
    case InsertOpen(device, apps, facts, run, now) => InsertKeeps(rows, device, apps, facts, run, now, |apps|);
    case UpdateGone(_, _, _, _) =>
    case UpdateDeparted(_, _, _) =>
    case DeleteClosed(cutoff) => var _ := PurgedIsPart(rows, cutoff, |rows|);
  }

  /** However the statements of racing syncs, departure closes and purges interleave, there are never
      two open rows for one latch, and a reason stands on exactly the closed rows. */
  lemma {:induction false} NeverTwoOpen(rows: seq<Alert>, statements: seq<Statement>, n: nat)
    requires n <= |statements| && forall i :: 0 <= i < |statements| ==> Described(statements[i])
    requires OneOpen(rows) && Reasoned(rows)
    ensures OneOpen(ExecuteAll(rows, statements, n)) && Reasoned(ExecuteAll(rows, statements, n))
  {
    if n > 0 {
      NeverTwoOpen(rows, statements, n - 1);
      StatementKeeps(ExecuteAll(rows, statements, n - 1), statements[n - 1]);
    }
  }

  /** Each close touches exactly the rows it is for, writes its time, its run and its reason on them, and
      nothing else of them. */
  lemma {:induction false} ClosesExactly(rows: seq<Alert>, statement: Statement, i: nat)
    requires (statement.UpdateGone? || statement.UpdateDeparted?) && i < |rows|
    ensures |Execute(rows, statement)| == |rows|
    ensures var (row, after) := (rows[i], Execute(rows, statement)[i]);
            var isFor := row.closedAt == None &&
              if statement.UpdateGone? then
                row.kind == "new_app" && row.device == statement.device && row.app in statement.departed
              else row.device in statement.devices;
            if !isFor then after == row
            else if statement.UpdateGone? then
              after == row.(closedAt := Some(statement.now), closedRun := statement.run, reason := Some("app_gone"))
            else after == row.(closedAt := Some(statement.at), closedRun := statement.run, reason := Some("device_departed"))
  {
  }

  // --- the count of the trailing day -------------------------------------------------------

  predicate OpenedWithin(row: Alert, since: Instant, until: Instant, active: set<DeviceId>) {
    since < row.openedAt <= until && row.device in active
  }

  /** `alerts.opened_24h` over the first `n` rows. */
  function OpenedCount(rows: seq<Alert>, since: Instant, until: Instant, active: set<DeviceId>, n: nat): nat
    requires n <= |rows|
  {
    if n == 0 then 0
    else OpenedCount(rows, since, until, active, n - 1) + if OpenedWithin(rows[n - 1], since, until, active) then 1 else 0
  }

  function Opened24h(rows: seq<Alert>, capturedAt: Instant, active: set<DeviceId>): nat {
    OpenedCount(rows, capturedAt - DAY, capturedAt, active, |rows|)
  }

  lemma {:induction false} SameOpenings(
    a: seq<Alert>, b: seq<Alert>, since: Instant, until: Instant, active: set<DeviceId>, n: nat)
    requires n <= |a| && n <= |b|
    requires forall i :: 0 <= i < n ==> a[i].openedAt == b[i].openedAt && a[i].device == b[i].device
    ensures OpenedCount(a, since, until, active, n) == OpenedCount(b, since, until, active, n)
  {
    if n > 0 {
      SameOpenings(a, b, since, until, active, n - 1);
    }
  }

  /** Neither close changes how many alerts the trailing day opened. */
  lemma {:induction false} ClosingKeepsTheCount(
    rows: seq<Alert>, statement: Statement, capturedAt: Instant, active: set<DeviceId>)
    requires statement.UpdateGone? || statement.UpdateDeparted?
    ensures Opened24h(Execute(rows, statement), capturedAt, active) == Opened24h(rows, capturedAt, active)
  {
    SameOpenings(Execute(rows, statement), rows, capturedAt - DAY, capturedAt, active, |rows|);
  }

  /** No row is closed more than `skew` before it was opened: the closing clock may be read before
      another writer's opening one. */
  predicate ClosesFollow(rows: seq<Alert>, skew: int) {
    forall i :: 0 <= i < |rows| && rows[i].closedAt.Some? ==> rows[i].openedAt <= rows[i].closedAt.value + skew
  }

  lemma {:induction false} PurgeKeepsCount(
    rows: seq<Alert>, cutoff: Instant, skew: int, since: Instant, until: Instant, active: set<DeviceId>, n: nat)
    requires n <= |rows| && ClosesFollow(rows, skew) && cutoff + skew <= since + 1
    ensures var kept := Purged(rows, cutoff, n);
            OpenedCount(kept, since, until, active, |kept|) == OpenedCount(rows, since, until, active, n)
  {
    if n > 0 {
      PurgeKeepsCount(rows, cutoff, skew, since, until, active, n - 1);
      var kept := Purged(rows, cutoff, n - 1);
      if !IsExpired(rows[n - 1], cutoff) {
        SameOpenings(kept + [rows[n - 1]], kept, since, until, active, |kept|);
      }
    }
  }

  /** The purge of one retention, and the day before a capture no earlier than it. */
  ghost predicate KeepsTheCount(
    rows: seq<Alert>, retentionDays: int, purgedAt: Instant, capturedAt: Instant, active: set<DeviceId>)
  {
    Opened24h(Execute(rows, DeleteClosed(purgedAt - retentionDays * DAY)), capturedAt, active)
    == Opened24h(rows, capturedAt, active)
  }

  /** The skew a retention has room for: what it keeps beyond a day, and the microsecond between
      "closed before the cutoff" and "opened after the day began". */
  predicate HasRoom(retentionDays: int, skew: int) {
    skew <= (retentionDays - 1) * DAY + 1
  }

  lemma {:induction false} PurgingKeepsTheCount(
    rows: seq<Alert>, retentionDays: int, purgedAt: Instant, skew: int, capturedAt: Instant, active: set<DeviceId>)
    requires ClosesFollow(rows, skew) && HasRoom(retentionDays, skew) && capturedAt >= purgedAt
    ensures KeepsTheCount(rows, retentionDays, purgedAt, capturedAt, active)
  {
    PurgeKeepsCount(rows, purgedAt - retentionDays * DAY, skew, capturedAt - DAY, capturedAt, active, |rows|);
  }

  /** A row opened as the trailing day begins, closed by a clock far enough behind, and purged. */
  function SkewedRun(app: string, retentionDays: int, purgedAt: Instant): (statements: seq<Statement>)
    ensures forall i :: 0 <= i < |statements| ==> Described(statements[i])
  {
    [InsertOpen(0, [app], map[app := Facts(app, app)], None, purgedAt - DAY + 1),
     UpdateGone(0, {app}, None, purgedAt - retentionDays * DAY - 1),
     DeleteClosed(purgedAt - retentionDays * DAY)]
  }

  lemma {:induction false} SkewedRows(app: string, retentionDays: int, purgedAt: Instant) returns (row: Alert)
    ensures var statements := SkewedRun(app, retentionDays, purgedAt);
            ExecuteAll([], statements, 2) == [row] && ExecuteAll([], statements, 3) == []
    ensures row.device == 0 && row.openedAt == purgedAt - DAY + 1
    ensures row.closedAt == Some(purgedAt - retentionDays * DAY - 1)
  {
    var statements := SkewedRun(app, retentionDays, purgedAt);
    var latch := Fresh(0, app, Facts(app, app), None, purgedAt - DAY + 1);
    row := Closed(latch, None, purgedAt - retentionDays * DAY - 1, APP_GONE);
    assert Inserted([], 0, [app], map[app := Facts(app, app)], None, purgedAt - DAY + 1, 0) == [];
    assert ExecuteAll([], statements, 0) == [];
    assert ExecuteAll([], statements, 1) == [latch];
    assert ExecuteAll([], statements, 2) == [row];
    assert Purged([row], purgedAt - retentionDays * DAY, 0) == [];
    assert Purged([row], purgedAt - retentionDays * DAY, 1) == [];
  }

  /** Past that room a run of three statements drops a row of the trailing day. */
  lemma {:induction false} SkewedPurgeCanDropOne(app: string, retentionDays: int, purgedAt: Instant, skew: int)
    requires !HasRoom(retentionDays, skew)
    ensures var statements := SkewedRun(app, retentionDays, purgedAt);
            && ClosesFollow(ExecuteAll([], statements, 2), skew)
            && Opened24h(ExecuteAll([], statements, 2), purgedAt, {0}) == 1
            && Opened24h(ExecuteAll([], statements, 3), purgedAt, {0}) == 0
  {
    var row := SkewedRows(app, retentionDays, purgedAt);
    assert OpenedCount([row], purgedAt - DAY, purgedAt, {0}, 0) == 0;
    assert OpenedWithin(row, purgedAt - DAY, purgedAt, {0});
  }

  /** A purge leaves the count of the trailing day alone, whatever the rows and the times, exactly
      when its retention has room for the skew. */
  lemma {:induction false} PurgingKeepsTheCountExactly(retentionDays: int, skew: int)
    ensures (forall rows, purgedAt, capturedAt, active :: ClosesFollow(rows, skew) && purgedAt <= capturedAt ==>
               KeepsTheCount(rows, retentionDays, purgedAt, capturedAt, active))
            <==> HasRoom(retentionDays, skew)
  {
    if HasRoom(retentionDays, skew) {
      forall rows, purgedAt, capturedAt, active | ClosesFollow(rows, skew) && purgedAt <= capturedAt
        ensures KeepsTheCount(rows, retentionDays, purgedAt, capturedAt, active)
      {
        PurgingKeepsTheCount(rows, retentionDays, purgedAt, skew, capturedAt, active);
      }
    } else {
      SkewedPurgeCanDropOne("", retentionDays, 0, skew);
      var rows := ExecuteAll([], SkewedRun("", retentionDays, 0), 2);
      assert !KeepsTheCount(rows, retentionDays, 0, 0, {0});
    }
  }

  // --- what is open, by history ------------------------------------------------------------

  /** What happens to a fleet: a read of one device's apps, a departure close, a purge. */
  datatype Event =
    | Read(device: DeviceId, deviceIsNew: bool, found: seq<InstalledApp>, run: RunId, now: Instant)
    | Departure(devices: set<DeviceId>, run: RunId, at: Instant)
    | Purge(retentionDays: int, now: Instant)

  /** The inventory the last of the first `n` events to read a device left. */
  function Inventory(events: seq<Event>, n: nat, device: DeviceId): set<string>
    requires n <= |events|
  {
    if n == 0 then {}
    else if events[n - 1].Read? && events[n - 1].device == device then Identities(events[n - 1].found)
    else Inventory(events, n - 1, device)
  }

  /** One event on the rows; `held` is the inventory a read finds recorded. */
  function Happened(rows: seq<Alert>, held: set<string>, event: Event): seq<Alert>
  {
    match event
    case Read(device, deviceIsNew, found, run, now) =>
      Synced(rows, device, Delta(held, Identities(found), deviceIsNew), AllFacts(found), run, now)
    case Departure(devices, run, at) => CloseDeparted(rows, devices, run, at)
    case Purge(retentionDays, now) => Purged(rows, now - retentionDays * DAY, |rows|)
  }

  function Held(events: seq<Event>, n: nat, event: Event): set<string>
    requires n <= |events|
  {
    if event.Read? then Inventory(events, n, event.device) else {}
  }

  predicate Follows(tables: seq<seq<Alert>>, events: seq<Event>, i: nat)
    requires i < |events| && |tables| == |events| + 1
  {
    tables[i + 1] == Happened(tables[i], Held(events, i, events[i]), events[i])
  }

  /** The table before and after every event, from an empty one, each read given the inventory before it. */
  predicate IsHistory(tables: seq<seq<Alert>>, events: seq<Event>) {
    && |tables| == |events| + 1 && tables[0] == []
    && forall i :: 0 <= i < |events| ==> Follows(tables, events, i)
  }

  /** A read finds an app: some row of it has this hash. */
  predicate Finds(event: Event, device: DeviceId, app: string) {
    event.Read? && event.device == device && app != "" && exists i :: 0 <= i < |event.found| && event.found[i].hash == Some(app)
  }

  predicate IsRead(event: Event, device: DeviceId) {
    event.Read? && event.device == device
  }

  /** The last read of a device before event `s`, if there is one. */
  function LastRead(events: seq<Event>, s: nat, device: DeviceId): (r: Option<nat>)
    requires s <= |events|
    ensures r.Some? ==> r.value < s && IsRead(events[r.value], device)
  {
    if s == 0 then None else if IsRead(events[s - 1], device) then Some(s - 1) else LastRead(events, s - 1, device)
  }

  /** The device has an inventory, and this app is not in it. */
  ghost predicate Lacks(events: seq<Event>, s: nat, device: DeviceId, app: string)
    requires s <= |events|
  {
    var r := LastRead(events, s, device);
    r.Some? && (exists other :: Finds(events[r.value], device, other)) && !Finds(events[r.value], device, app)
  }

  /** A run of presence begins here: a read of a device that is not new finds an app that the device's
      inventory, which is not empty, lacks. */
  ghost predicate Arrives(events: seq<Event>, s: nat, device: DeviceId, app: string)
    requires s < |events|
  {
    Finds(events[s], device, app) && !events[s].deviceIsNew && Lacks(events, s, device, app)
  }

  /** This event leaves a latch alone: no read of the device without the app, no departure of it. */
  predicate Spares(event: Event, device: DeviceId, app: string) {
    && (IsRead(event, device) ==> Finds(event, device, app))
    && (event.Departure? ==> device !in event.devices)
  }

  ghost predicate OpenByHistory(events: seq<Event>, n: nat, device: DeviceId, app: string)
    requires n <= |events|
  {
    exists s: nat :: s < n && Arrives(events, s, device, app) && SparedSince(events, s, n, device, app)
  }

  predicate SparedSince(events: seq<Event>, s: nat, n: nat, device: DeviceId, app: string)
    requires n <= |events|
  {
    forall i :: s < i < n ==> Spares(events[i], device, app)
  }

  lemma {:induction false} FindsIdentities(event: Event, device: DeviceId, app: string)
    requires IsRead(event, device)
    ensures Finds(event, device, app) <==> app in Identities(event.found)
  {
  }

  lemma {:induction false} InventoryIsLastRead(events: seq<Event>, n: nat, device: DeviceId)
    requires n <= |events|
    ensures var r := LastRead(events, n, device);
            Inventory(events, n, device) == if r.Some? then Identities(events[r.value].found) else {}
  {
    if n > 0 && !IsRead(events[n - 1], device) {
      InventoryIsLastRead(events, n - 1, device);
    }
  }

  /** The arrival is what the decision opens. */
  lemma {:induction false} ArrivesExactly(events: seq<Event>, s: nat, device: DeviceId, app: string)
    requires s < |events|
    ensures Arrives(events, s, device, app) <==> Brings(Inventory(events, s, device), events[s], device, app)
  {
    var r, held := LastRead(events, s, device), Inventory(events, s, device);
    InventoryIsLastRead(events, s, device);
    if IsRead(events[s], device) && r.Some? {
      FindsIdentities(events[s], device, app);
      forall other ensures Finds(events[r.value], device, other) <==> other in held {
        FindsIdentities(events[r.value], device, other);
      }
      if held != {} {
        var other :| other in held;
        assert Finds(events[r.value], device, other);
      }
    }
  }

  lemma {:induction false} InsertedLatches(
    rows: seq<Alert>, device: DeviceId, apps: seq<string>, facts: map<string, Facts>, run: RunId, now: Instant,
    n: nat, other: DeviceId, app: string)
    requires n <= |apps| && forall a :: a in apps ==> a in facts
    ensures Latched(Inserted(rows, device, apps, facts, run, now, n), other, app)
       <==> Latched(rows, other, app) || (other == device && app in apps[..n])
  {
    if n > 0 {
      InsertedLatches(rows, device, apps, facts, run, now, n - 1, other, app);
      assert apps[..n] == apps[..n - 1] + [apps[n - 1]];
      LatchedOneMore(Inserted(rows, device, apps, facts, run, now, n - 1),
                     Fresh(device, apps[n - 1], facts[apps[n - 1]], run, now), other, app);
    }
  }

  lemma {:induction false} LatchedOneMore(rows: seq<Alert>, row: Alert, device: DeviceId, app: string)
    ensures Latched(rows + [row], device, app) <==> Latched(rows, device, app) || IsLatch(row, device, app)
  {
    assert (rows + [row])[|rows|] == row;
    if Latched(rows, device, app) {
      var i :| 0 <= i < |rows| && IsLatch(rows[i], device, app);
      assert IsLatch((rows + [row])[i], device, app);
    }
  }

  lemma {:induction false} GoneLatches(
    rows: seq<Alert>, device: DeviceId, departed: set<string>, run: RunId, now: Instant, other: DeviceId, app: string)
    ensures Latched(CloseGone(rows, device, departed, run, now), other, app)
       <==> Latched(rows, other, app) && !(other == device && app in departed)
  {
    var after := CloseGone(rows, device, departed, run, now);
    forall i | 0 <= i < |rows|
      ensures IsLatch(after[i], other, app) <==> IsLatch(rows[i], other, app) && !(other == device && app in departed)
    {
    }
  }

  lemma {:induction false} DepartedLatches(
    rows: seq<Alert>, devices: set<DeviceId>, run: RunId, at: Instant, other: DeviceId, app: string)
    ensures Latched(CloseDeparted(rows, devices, run, at), other, app) <==> Latched(rows, other, app) && other !in devices
  {
    var after := CloseDeparted(rows, devices, run, at);
    forall i | 0 <= i < |rows|
      ensures IsLatch(after[i], other, app) <==> IsLatch(rows[i], other, app) && other !in devices
    {
    }
  }

  lemma {:induction false} PurgedLatches(rows: seq<Alert>, cutoff: Instant, n: nat, device: DeviceId, app: string)
    requires n <= |rows|
    ensures Latched(Purged(rows, cutoff, n), device, app) <==> Latched(rows[..n], device, app)
  {
    if n > 0 {
      PurgedLatches(rows, cutoff, n - 1, device, app);
      assert rows[..n] == rows[..n - 1] + [rows[n - 1]];
      LatchedOneMore(rows[..n - 1], rows[n - 1], device, app);
      LatchedOneMore(Purged(rows, cutoff, n - 1), rows[n - 1], device, app);
    }
  }

  lemma {:induction false} SyncedLatches(
    rows: seq<Alert>, device: DeviceId, delta: LatchDelta, facts: map<string, Facts>, run: RunId, now: Instant,
    other: DeviceId, app: string)
    requires delta.toOpen <= facts.Keys
    ensures Latched(Synced(rows, device, delta, facts, run, now), other, app)
       <==> (Latched(rows, other, app) || (other == device && app in delta.toOpen))
            && !(other == device && app in delta.departed)
  {
    var apps := Sorted(delta.toOpen);
    InsertedLatches(rows, device, apps, facts, run, now, |apps|, other, app);
    GoneLatches(Inserted(rows, device, apps, facts, run, now, |apps|), device, delta.departed, run, now, other, app);
    assert apps[..|apps|] == apps;
  }

  /** An app this read finds for the first time, but not a priming one. */
  predicate Brings(held: set<string>, event: Event, device: DeviceId, app: string) {
    && event.Read? && event.device == device && app in Identities(event.found) && app !in held
    && !Priming(held, event.deviceIsNew)
  }

  /** One event, seen by one latch. */
  lemma {:induction false} HappenedLatches(
    rows: seq<Alert>, held: set<string>, event: Event, device: DeviceId, app: string)
    requires IsRead(event, device) && Latched(rows, device, app) ==> app in held
    ensures Latched(Happened(rows, held, event), device, app)
       <==> Brings(held, event, device, app) || (Latched(rows, device, app) && Spares(event, device, app))
  {
    match event
    case Read(read, deviceIsNew, found, run, now) =>
      if read == device {
        FindsIdentities(event, device, app);
      }
      SyncedLatches(rows, read, Delta(held, Identities(found), deviceIsNew), AllFacts(found), run, now, device, app);
    case Departure(devices, run, at) =>
      DepartedLatches(rows, devices, run, at, device, app);
    case Purge(retentionDays, now) =>
      PurgedLatches(rows, now - retentionDays * DAY, |rows|, device, app);
      assert rows[..|rows|] == rows;
  }

  lemma {:induction false} EventLatches(
    events: seq<Event>, n: nat, before: seq<Alert>, rows: seq<Alert>, device: DeviceId, app: string)
    requires 0 < n <= |events| && rows == Happened(before, Held(events, n - 1, events[n - 1]), events[n - 1])
    requires Latched(before, device, app) ==> app in Inventory(events, n - 1, device)
    ensures Latched(rows, device, app)
       <==> Arrives(events, n - 1, device, app) || (Latched(before, device, app) && Spares(events[n - 1], device, app))
  {
    HappenedLatches(before, Held(events, n - 1, events[n - 1]), events[n - 1], device, app);
    ArrivesExactly(events, n - 1, device, app);
  }

  lemma {:induction false} HistoryOneMore(events: seq<Event>, n: nat, device: DeviceId, app: string)
    requires 0 < n <= |events|
    ensures OpenByHistory(events, n, device, app)
       <==> Arrives(events, n - 1, device, app)
            || (OpenByHistory(events, n - 1, device, app) && Spares(events[n - 1], device, app))
  {
    if Arrives(events, n - 1, device, app) {
      assert SparedSince(events, n - 1, n, device, app);
    }
    if OpenByHistory(events, n - 1, device, app) && Spares(events[n - 1], device, app) {
      var s: nat :| s < n - 1 && Arrives(events, s, device, app) && SparedSince(events, s, n - 1, device, app);
      assert SparedSince(events, s, n, device, app);
    }
    if OpenByHistory(events, n, device, app) && !Arrives(events, n - 1, device, app) {
      var s: nat :| s < n && Arrives(events, s, device, app) && SparedSince(events, s, n, device, app);
      assert SparedSince(events, s, n - 1, device, app);
    }
  }

  lemma {:induction false} InventoryHolds(events: seq<Event>, n: nat, device: DeviceId, app: string)
    requires 0 < n <= |events|
    ensures Arrives(events, n - 1, device, app) ==> app in Inventory(events, n, device)
    ensures app in Inventory(events, n - 1, device) && Spares(events[n - 1], device, app) ==> app in Inventory(events, n, device)
  {
    if IsRead(events[n - 1], device) {
      FindsIdentities(events[n - 1], device, app);
    }
  }

  ghost predicate IsOpenByHistory(events: seq<Event>, n: nat, rows: seq<Alert>, device: DeviceId, app: string)
    requires n <= |events|
  {
    && (Latched(rows, device, app) <==> OpenByHistory(events, n, device, app))
    && (Latched(rows, device, app) ==> app in Inventory(events, n, device))
  }

  lemma {:induction false} HistoryStep(
    events: seq<Event>, n: nat, before: seq<Alert>, rows: seq<Alert>, device: DeviceId, app: string)
    requires 0 < n <= |events| && rows == Happened(before, Held(events, n - 1, events[n - 1]), events[n - 1])
    requires IsOpenByHistory(events, n - 1, before, device, app)
    ensures IsOpenByHistory(events, n, rows, device, app)
  {
    EventLatches(events, n, before, rows, device, app);
    HistoryOneMore(events, n, device, app);
    InventoryHolds(events, n, device, app);
  }

  lemma {:induction false} TablesAreHistory(
    tables: seq<seq<Alert>>, events: seq<Event>, n: nat, device: DeviceId, app: string)
    requires IsHistory(tables, events) && n <= |events|
    ensures IsOpenByHistory(events, n, tables[n], device, app)
  {
    if n > 0 {
      TablesAreHistory(tables, events, n - 1, device, app);
      assert Follows(tables, events, n - 1);
      HistoryStep(events, n, tables[n - 1], tables[n], device, app);
    }
  }

  /** A latch is open exactly when its app arrived, every read of the device since has found it, and the
      device has not departed since. What is open is always part of the device's inventory. */
  lemma {:induction false} OpenIsHistory(
    tables: seq<seq<Alert>>, events: seq<Event>, n: nat, device: DeviceId, app: string)
    requires IsHistory(tables, events) && n <= |events|
    ensures Latched(tables[n], device, app) <==> OpenByHistory(events, n, device, app)
    ensures Latched(tables[n], device, app) ==> app in Inventory(events, n, device)
  {
    TablesAreHistory(tables, events, n, device, app);
  }

  /** A read that finds the same identities, whatever their builds, changes no row. */
  lemma {:induction false} SameIdentitiesChangeNothing(tables: seq<seq<Alert>>, events: seq<Event>, n: nat)
    requires IsHistory(tables, events) && 0 < n <= |events| && events[n - 1].Read?
    requires Identities(events[n - 1].found) == Inventory(events, n - 1, events[n - 1].device)
    ensures tables[n] == tables[n - 1]
  {
    assert Follows(tables, events, n - 1);
    assert CloseGone(tables[n - 1], events[n - 1].device, {}, events[n - 1].run, events[n - 1].now) == tables[n - 1];
  }

  // --- histories whose clock does not go back ----------------------------------------------

  function Time(event: Event): Instant {
    match event
    case Read(_, _, _, _, now) => now
    case Departure(_, _, at) => at
    case Purge(_, now) => now
  }

  predicate InTime(events: seq<Event>) {
    forall i, j :: 0 <= i < j < |events| ==> Time(events[i]) <= Time(events[j])
  }

  predicate OpenedBy(rows: seq<Alert>, time: Instant) {
    forall i :: 0 <= i < |rows| ==> rows[i].openedAt <= time
  }

  lemma {:induction false} InsertedInTime(
    rows: seq<Alert>, device: DeviceId, apps: seq<string>, facts: map<string, Facts>, run: RunId, now: Instant, n: nat)
    requires n <= |apps| && forall app :: app in apps ==> app in facts
    requires OpenedBy(rows, now) && ClosesFollow(rows, 0)
    ensures var more := Inserted(rows, device, apps, facts, run, now, n); OpenedBy(more, now) && ClosesFollow(more, 0)
  {
    if n > 0 {
      InsertedInTime(rows, device, apps, facts, run, now, n - 1);
    }
  }

  lemma {:induction false} ReadInTime(
    rows: seq<Alert>, device: DeviceId, delta: LatchDelta, facts: map<string, Facts>, run: RunId, now: Instant)
    requires delta.toOpen <= facts.Keys && OpenedBy(rows, now) && ClosesFollow(rows, 0)
    ensures var after := Synced(rows, device, delta, facts, run, now); OpenedBy(after, now) && ClosesFollow(after, 0)
  {
    InsertedInTime(rows, device, Sorted(delta.toOpen), facts, run, now, |Sorted(delta.toOpen)|);
  }

  lemma {:induction false} PurgedInTime(rows: seq<Alert>, cutoff: Instant, time: Instant)
    requires OpenedBy(rows, time) && ClosesFollow(rows, 0)
    ensures var after := Purged(rows, cutoff, |rows|); OpenedBy(after, time) && ClosesFollow(after, 0)
  {
    KeptInOrder(rows, cutoff, |rows|);
  }

  lemma {:induction false} HappenedInTime(rows: seq<Alert>, held: set<string>, event: Event)
    requires OpenedBy(rows, Time(event)) && ClosesFollow(rows, 0)
    ensures OpenedBy(Happened(rows, held, event), Time(event)) && ClosesFollow(Happened(rows, held, event), 0)
  {
    match event
    case Read(device, deviceIsNew, found, run, now) =>
      ReadInTime(rows, device, Delta(held, Identities(found), deviceIsNew), AllFacts(found), run, now);
    case Departure(_, _, _) =>
    case Purge(retentionDays, now) =>
      PurgedInTime(rows, now - retentionDays * DAY, now);
  }

  lemma {:induction false} TablesInTime(tables: seq<seq<Alert>>, events: seq<Event>, n: nat, time: Instant)
    requires IsHistory(tables, events) && n <= |events| && InTime(events)
    requires forall i :: 0 <= i < n ==> Time(events[i]) <= time
    ensures OpenedBy(tables[n], time) && ClosesFollow(tables[n], 0)
  {
    if n > 0 {
      TablesInTime(tables, events, n - 1, Time(events[n - 1]));
      assert Follows(tables, events, n - 1);
      HappenedInTime(tables[n - 1], Held(events, n - 1, events[n - 1]), events[n - 1]);
    }
  }

  lemma {:induction false} EventKeepsTheCount(
    rows: seq<Alert>, held: set<string>, event: Event, capturedAt: Instant, active: set<DeviceId>)
    requires event.Departure? || (event.Purge? && event.retentionDays >= 1 && ClosesFollow(rows, 0))
    requires capturedAt >= Time(event)
    ensures Opened24h(Happened(rows, held, event), capturedAt, active) == Opened24h(rows, capturedAt, active)
  {
    if event.Departure? {
      ClosingKeepsTheCount(rows, UpdateDeparted(event.devices, event.run, event.at), capturedAt, active);
    } else {
      PurgingKeepsTheCount(rows, event.retentionDays, event.now, 0, capturedAt, active);
    }
  }

  /** While the clock does not go back, a departure close, and a purge that keeps at least a day,
      leave the count of the trailing day what it was. */
  lemma {:induction false} HistoryKeepsTheCount(
    tables: seq<seq<Alert>>, events: seq<Event>, n: nat, capturedAt: Instant, active: set<DeviceId>)
    requires IsHistory(tables, events) && 0 < n <= |events| && InTime(events)
    requires events[n - 1].Departure? || (events[n - 1].Purge? && events[n - 1].retentionDays >= 1)
    requires capturedAt >= Time(events[n - 1])
    ensures Opened24h(tables[n], capturedAt, active) == Opened24h(tables[n - 1], capturedAt, active)
  {
    TablesInTime(tables, events, n - 1, Time(events[n - 1]));
    assert Follows(tables, events, n - 1);
    EventKeepsTheCount(tables[n - 1], Held(events, n - 1, events[n - 1]), events[n - 1], capturedAt, active);
  }
}
