/** What each alert row says, read off a device's history: which read opened it and with what app, which
    event closed it and why; and that a priming read opens none. */
module RowHistory {
  import opened Prelude
  import opened Documents
  import opened Alerts
  import opened LatchHistory

  /** The first row of a read that has this hash. */
  predicate IsFirstOf(found: seq<InstalledApp>, i: nat, app: string)
    requires i < |found|
  {
    found[i].hash == Some(app) && forall j :: 0 <= j < i ==> found[j].hash != Some(app)
  }

  /** The read `s` opened this row: its app arrived there, and it is named as the read first names it. */
  ghost predicate IsOpenedBy(events: seq<Event>, s: nat, row: Alert)
    requires s < |events|
  {
    && Arrives(events, s, row.device, row.app)
    && row.kind == "new_app" && row.level == "high"
    && row.openedAt == events[s].now && row.openedRun == events[s].run
    && exists i :: 0 <= i < |events[s].found| && IsFirstOf(events[s].found, i, row.app)
         && row.name == events[s].found[i].name && row.bundle == events[s].found[i].bundle
  }

  /** This event closed this row: the app was gone at a read, or the device departed. */
  predicate IsClosedBy(event: Event, row: Alert) {
    || (IsRead(event, row.device) && !Finds(event, row.device, row.app)
        && row.closedAt == Some(event.now) && row.closedRun == event.run && row.reason == Some("app_gone"))
    || (event.Departure? && row.device in event.devices
        && row.closedAt == Some(event.at) && row.closedRun == event.run && row.reason == Some("device_departed"))
  }

  predicate IsUnclosed(row: Alert) {
    row.closedAt == None && row.closedRun == None && row.reason == None
  }

  /** Open and spared since event `s`, or closed at `c` and spared between. */
  ghost predicate Ended(events: seq<Event>, s: nat, n: nat, row: Alert)
    requires n <= |events|
  {
    || (IsUnclosed(row) && SparedSince(events, s, n, row.device, row.app))
    || (exists c: nat :: s < c < n && IsClosedBy(events[c], row) && SparedSince(events, s, c, row.device, row.app))
  }

  ghost predicate IsTold(events: seq<Event>, n: nat, row: Alert)
    requires n <= |events|
  {
    exists s: nat :: s < n && IsOpenedBy(events, s, row) && Ended(events, s, n, row)
  }

  // --- the inserted rows ---------------------------------------------------------------------

  lemma {:induction false} InsertedKeeps(
    rows: seq<Alert>, device: DeviceId, apps: seq<string>, facts: map<string, Facts>, run: RunId, now: Instant, n: nat)
    requires n <= |apps| && forall app :: app in apps ==> app in facts
    ensures rows <= Inserted(rows, device, apps, facts, run, now, n)
    ensures forall i :: |rows| <= i < |Inserted(rows, device, apps, facts, run, now, n)| ==>
              var row := Inserted(rows, device, apps, facts, run, now, n)[i];
              row.app in apps && row == Fresh(device, row.app, facts[row.app], run, now)
  {
    if n > 0 {
      InsertedKeeps(rows, device, apps, facts, run, now, n - 1);
    }
  }

  /** A row that a read leaves is one it opened, or one that was there, closed if its app is gone. */
  lemma {:induction false} SyncedRow(
    rows: seq<Alert>, device: DeviceId, delta: LatchDelta, facts: map<string, Facts>, run: RunId, now: Instant, i: nat)
    requires delta.toOpen <= facts.Keys && delta.toOpen !! delta.departed
    requires i < |Synced(rows, device, delta, facts, run, now)|
    ensures |rows| <= |Synced(rows, device, delta, facts, run, now)|
    ensures var row := Synced(rows, device, delta, facts, run, now)[i];
            if i < |rows| then
              row == if IsGone(rows[i], device, delta.departed) then Closed(rows[i], run, now, APP_GONE) else rows[i]
            else row.app in delta.toOpen && row == Fresh(device, row.app, facts[row.app], run, now)
  {
    var apps := Sorted(delta.toOpen);
    InsertedKeeps(rows, device, apps, facts, run, now, |apps|);
  }

  // --- one event -----------------------------------------------------------------------------

  lemma {:induction false} StillTold(events: seq<Event>, n: nat, row: Alert, after: Alert)
    requires 0 < n <= |events| && IsTold(events, n - 1, row)
    requires || (after == row && (IsUnclosed(row) ==> Spares(events[n - 1], row.device, row.app)))
             || (IsUnclosed(row) && IsClosedBy(events[n - 1], after)
                 && after == row.(closedAt := after.closedAt, closedRun := after.closedRun, reason := after.reason))
    ensures IsTold(events, n, after)
  {
    var s: nat :| s < n - 1 && IsOpenedBy(events, s, row) && Ended(events, s, n - 1, row);
    assert IsOpenedBy(events, s, after);
    if after == row {
      if IsUnclosed(row) {
        assert SparedSince(events, s, n, row.device, row.app);
      }
    } else {
      assert SparedSince(events, s, n - 1, row.device, row.app);
      assert IsClosedBy(events[n - 1], after);
    }
    assert Ended(events, s, n, after);
  }

  lemma {:induction false} NewlyTold(events: seq<Event>, n: nat, row: Alert, held: set<string>)
    requires 0 < n <= |events| && IsRead(events[n - 1], row.device) && held == Inventory(events, n - 1, row.device)
    requires Brings(held, events[n - 1], row.device, row.app)
    requires row == Fresh(row.device, row.app, FactsOf(events[n - 1].found, row.app), events[n - 1].run, events[n - 1].now)
    ensures IsTold(events, n, row)
  {
    var found := events[n - 1].found;
    var i := FirstWith(found, (one: InstalledApp) => one.hash, Some(row.app), |found|);
    assert IsFirstOf(found, i, row.app);
    ArrivesExactly(events, n - 1, row.device, row.app);
    assert IsOpenedBy(events, n - 1, row);
    assert SparedSince(events, n - 1, n, row.device, row.app);
  }

  ghost predicate AllTold(events: seq<Event>, n: nat, rows: seq<Alert>)
    requires n <= |events|
  {
    forall i :: 0 <= i < |rows| ==> IsTold(events, n, rows[i])
  }

  /** A row an event finds open is a latch of its own device and app. */
  lemma {:induction false} OpenRowIsLatch(events: seq<Event>, n: nat, rows: seq<Alert>, i: nat)
    requires n <= |events| && i < |rows| && IsTold(events, n, rows[i]) && Open(rows[i])
    ensures IsUnclosed(rows[i]) && Latched(rows, rows[i].device, rows[i].app)
  {
    assert IsLatch(rows[i], rows[i].device, rows[i].app);
  }

  predicate IsHeld(rows: seq<Alert>, events: seq<Event>, n: nat, device: DeviceId, app: string)
    requires n <= |events|
  {
    Latched(rows, device, app) ==> app in Inventory(events, n, device)
  }

  ghost predicate LatchesAreHeld(rows: seq<Alert>, events: seq<Event>, n: nat)
    requires n <= |events|
  {
    forall device, app :: IsHeld(rows, events, n, device, app)
  }

  lemma {:induction false} LatchesHeld(tables: seq<seq<Alert>>, events: seq<Event>, n: nat)
    requires IsHistory(tables, events) && n <= |events|
    ensures LatchesAreHeld(tables[n], events, n)
  {
    forall device, app ensures IsHeld(tables[n], events, n, device, app) {
      OpenIsHistory(tables, events, n, device, app);
    }
  }

  lemma {:induction false} ReadTells(events: seq<Event>, n: nat, rows: seq<Alert>, after: seq<Alert>, i: nat)
    requires 0 < n <= |events| && events[n - 1].Read? && AllTold(events, n - 1, rows)
    requires after == Happened(rows, Held(events, n - 1, events[n - 1]), events[n - 1]) && i < |after|
    requires LatchesAreHeld(rows, events, n - 1)
    ensures IsTold(events, n, after[i])
  {
    var event := events[n - 1];
    var held := Inventory(events, n - 1, event.device);
    var delta := Delta(held, Identities(event.found), event.deviceIsNew);
    SyncedRow(rows, event.device, delta, AllFacts(event.found), event.run, event.now, i);
    if i >= |rows| {
      NewlyTold(events, n, after[i], held);
    } else {
      assert IsTold(events, n - 1, rows[i]);
      OldRowTold(events, n, rows, i, after[i], delta.departed);
    }
  }

  lemma {:induction false} OldRowTold(
    events: seq<Event>, n: nat, rows: seq<Alert>, i: nat, after: Alert, departed: set<string>)
    requires 0 < n <= |events| && events[n - 1].Read? && i < |rows| && IsTold(events, n - 1, rows[i])
    requires LatchesAreHeld(rows, events, n - 1)
    requires departed == Inventory(events, n - 1, events[n - 1].device) - Identities(events[n - 1].found)
    requires after == if IsGone(rows[i], events[n - 1].device, departed)
                      then Closed(rows[i], events[n - 1].run, events[n - 1].now, APP_GONE) else rows[i]
    ensures IsTold(events, n, after)
  {
    var row := rows[i];
    if Open(row) {
      OpenRowIsLatch(events, n - 1, rows, i);
      assert IsHeld(rows, events, n - 1, row.device, row.app);
      if row.device == events[n - 1].device {
        FindsIdentities(events[n - 1], row.device, row.app);
      }
    }
    StillTold(events, n, row, after);
  }

  lemma {:induction false} DepartureTells(events: seq<Event>, n: nat, rows: seq<Alert>, i: nat)
    requires 0 < n <= |events| && events[n - 1].Departure? && i < |rows| && IsTold(events, n - 1, rows[i])
    ensures IsTold(events, n, CloseDeparted(rows, events[n - 1].devices, events[n - 1].run, events[n - 1].at)[i])
  {
    if Open(rows[i]) {
      OpenRowIsLatch(events, n - 1, rows, i);
    }
    var event := events[n - 1];
    StillTold(events, n, rows[i],
              if IsDeparted(rows[i], event.devices) then Closed(rows[i], event.run, event.at, DEVICE_DEPARTED) else rows[i]);
  }

  lemma {:induction false} PurgeTells(events: seq<Event>, n: nat, rows: seq<Alert>, cutoff: Instant, i: nat)
    requires 0 < n <= |events| && events[n - 1].Purge? && AllTold(events, n - 1, rows)
    requires i < |Purged(rows, cutoff, |rows|)|
    ensures IsTold(events, n, Purged(rows, cutoff, |rows|)[i])
  {
    var origin := PurgedIsPart(rows, cutoff, |rows|);
    var row := rows[origin[i]];
    assert IsTold(events, n - 1, row);
    StillTold(events, n, row, row);
  }

  lemma {:induction false} OtherTells(events: seq<Event>, n: nat, rows: seq<Alert>, after: seq<Alert>, i: nat)
    requires 0 < n <= |events| && !events[n - 1].Read? && AllTold(events, n - 1, rows)
    requires after == Happened(rows, Held(events, n - 1, events[n - 1]), events[n - 1]) && i < |after|
    ensures IsTold(events, n, after[i])
  {
    match events[n - 1]
    case Departure(_, _, _) => DepartureTells(events, n, rows, i);
    case Purge(retentionDays, now) => PurgeTells(events, n, rows, now - retentionDays * DAY, i);
  }

  /** Every row, open or closed, tells its history: the read its app arrived at opened it, under the name
      and bundle that read first gave; and it is open with every event since sparing it, or the first event
      that did not closed it, a read with the app gone or a departure, and says which. */
  lemma {:induction false} RowsTellHistory(tables: seq<seq<Alert>>, events: seq<Event>, n: nat)
    requires IsHistory(tables, events) && n <= |events|
    ensures AllTold(events, n, tables[n])
  {
    if n > 0 {
      RowsTellHistory(tables, events, n - 1);
      assert Follows(tables, events, n - 1);
      forall i | 0 <= i < |tables[n]| ensures IsTold(events, n, tables[n][i]) {
        if events[n - 1].Read? {
          LatchesHeld(tables, events, n - 1);
          ReadTells(events, n, tables[n - 1], tables[n], i);
        } else {
          OtherTells(events, n, tables[n - 1], tables[n], i);
        }
      }
    }
  }

  // --- priming -------------------------------------------------------------------------------

  /** Nothing is recorded of the device: it was never read, or its last read found no app. */
  ghost predicate HasNoInventory(events: seq<Event>, n: nat, device: DeviceId)
    requires n <= |events|
  {
    var r := LastRead(events, n, device);
    r.Some? ==> forall app :: !Finds(events[r.value], device, app)
  }

  /** A read of a new device, or of one with no inventory, opens no row, whatever it finds. */
  lemma {:induction false} PrimingOpensNothing(tables: seq<seq<Alert>>, events: seq<Event>, n: nat)
    requires IsHistory(tables, events) && 0 < n <= |events| && events[n - 1].Read?
    requires events[n - 1].deviceIsNew || HasNoInventory(events, n - 1, events[n - 1].device)
    ensures |tables[n]| == |tables[n - 1]|
    ensures forall i :: 0 <= i < |tables[n]| && Open(tables[n][i]) ==> tables[n][i] == tables[n - 1][i]
  {
    var event := events[n - 1];
    var held := Inventory(events, n - 1, event.device);
    assert Follows(tables, events, n - 1);
    InventoryIsLastRead(events, n - 1, event.device);
    var r := LastRead(events, n - 1, event.device);
    if !event.deviceIsNew && r.Some? {
      forall app ensures app !in held {
        FindsIdentities(events[r.value], event.device, app);
      }
      assert held == {};
    }
    var delta := Delta(held, Identities(event.found), event.deviceIsNew);
    assert delta.toOpen == {};
    NoneSorted();
  }

  lemma {:induction false} NoneSorted()
    ensures Sorted({}) == []
  {
  }
}
