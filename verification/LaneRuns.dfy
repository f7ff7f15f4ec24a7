/** The serial lane over whole runs: no wake-up is lost, calls are spaced and never overlap, and an
    interactive request goes first. */
module LaneRuns {
  import opened Prelude
  import opened SerialLane

  // --- runs --------------------------------------------------------------------------------

  predicate Follows(lanes: seq<Lane>, steps: seq<Step>, i: nat)
    requires i < |steps| && |lanes| == |steps| + 1
  {
    Enabled(lanes[i], steps[i]) && lanes[i + 1] == Next(lanes[i], steps[i])
  }

  /** A run: any interleaving of enabled steps, from a lane nobody has used. */
  ghost predicate Run(lanes: seq<Lane>, steps: seq<Step>) {
    && |lanes| == |steps| + 1
    && lanes[0] == Start(lanes[0].now)
    && forall i :: 0 <= i < |steps| ==> Follows(lanes, steps, i)
  }

  lemma {:induction false} Reachable(lanes: seq<Lane>, steps: seq<Step>, i: nat)
    requires Run(lanes, steps) && i < |lanes|
    ensures Inv(lanes[i])
  {
    if i == 0 {
      assert Counted(map[]) == {};
    } else {
      Reachable(lanes, steps, i - 1);
      assert Follows(lanes, steps, i - 1);
      StepKeeps(lanes[i - 1], steps[i - 1]);
    }
  }

  /** When the last release before step `i` happened; 0 where there was none. */
  function LastRelease(lanes: seq<Lane>, steps: seq<Step>, i: nat): Instant
    requires i <= |steps| && i < |lanes| && |steps| < |lanes|
  {
    if i == 0 then 0
    else if steps[i - 1].Release? then lanes[i - 1].now
    else LastRelease(lanes, steps, i - 1)
  }

  lemma {:induction false} LastFinishedIsLastRelease(lanes: seq<Lane>, steps: seq<Step>, i: nat)
    requires Run(lanes, steps) && i < |lanes|
    ensures lanes[i].lastFinished == LastRelease(lanes, steps, i)
  {
    if i > 0 {
      LastFinishedIsLastRelease(lanes, steps, i - 1);
      assert Follows(lanes, steps, i - 1);
    }
  }

  /** In every reachable state with the lane free and somebody inside `acquire`, somebody inside
      can move: runnable, or holding a timer that ends with its own pause. */
  lemma {:induction false} NoLostWakeUp(
    lanes: seq<Lane>, steps: seq<Step>, i: nat, id: RequestId) returns (mover: RequestId)
    requires Run(lanes, steps) && i < |lanes|
    requires !lanes[i].busy && Inside(lanes[i], id)
    ensures Inside(lanes[i], mover)
    ensures IsReady(lanes[i], mover) || lanes[i].members[mover].phase.timer.Some?
    ensures Interactive(lanes[i], id) ==> mover == id
  {
    Reachable(lanes, steps, i);
    mover := id;
    if Asleep(lanes[i], id) && lanes[i].members[id].phase.timer.None? {
      mover :| mover in Counted(lanes[i].members);
    }
  }

  /** Every sleeper without a timer waits for a holder, or is a background request behind an
      interactive one that can itself move. */
  lemma {:induction false} UntimedSleepersAreBlocked(
    lanes: seq<Lane>, steps: seq<Step>, i: nat, id: RequestId) returns (blocker: RequestId)
    requires Run(lanes, steps) && i < |lanes|
    requires Asleep(lanes[i], id) && lanes[i].members[id].phase.timer.None?
    ensures Holds(lanes[i], blocker)
            || (&& !Interactive(lanes[i], id) && Interactive(lanes[i], blocker) && Inside(lanes[i], blocker)
                && (IsReady(lanes[i], blocker) || lanes[i].members[blocker].phase.timer.Some?))
  {
    Reachable(lanes, steps, i);
    if lanes[i].busy {
      blocker :| Holds(lanes[i], blocker);
    } else {
      blocker :| blocker in Counted(lanes[i].members);
    }
  }

  /** When a request may have a free lane: its own interval after the last release. */
  function DueAt(lanes: seq<Lane>, steps: seq<Step>, i: nat, id: RequestId): Instant
    requires i <= |steps| && i < |lanes| && |steps| < |lanes| && id in lanes[i].members
  {
    LastRelease(lanes, steps, i) + lanes[i].members[id].request.minimumInterval
  }

  ghost predicate Free(lane: Lane) {
    forall id :: !Holds(lane, id)
  }

  /** No interactive request inside `acquire` outranks this one. */
  ghost predicate Unoutranked(lane: Lane, id: RequestId) {
    Interactive(lane, id) || forall other :: Inside(lane, other) ==> !Interactive(lane, other)
  }

  lemma {:induction false} FreeIsIdle(lane: Lane, id: RequestId)
    requires Inv(lane) && Inside(lane, id)
    ensures Free(lane) <==> !lane.busy
    ensures Unoutranked(lane, id) <==> !lane.members[id].request.background || lane.interactiveWaiters == 0
  {
    if lane.interactiveWaiters != 0 {
      assert Counted(lane.members) != {};
      var other :| other in Counted(lane.members);
      assert Inside(lane, other) && Interactive(lane, other);
    } else {
      assert Counted(lane.members) == {};
      forall other ensures Inside(lane, other) ==> !Interactive(lane, other) {
        assert other in Counted(lane.members) <==> Inside(lane, other) && Interactive(lane, other);
      }
    }
  }

  /** A turn grants exactly when nobody holds the lane, nobody outranks the request, and its interval since
      the last release has passed. Refused on a free lane before that, it sleeps exactly until then;
      refused otherwise, it sleeps until it is notified. */
  lemma {:induction false} TurnsGrantExactly(lanes: seq<Lane>, steps: seq<Step>, i: nat, id: RequestId)
    requires Run(lanes, steps) && i < |steps| && steps[i] == Evaluate(id)
    ensures Inside(lanes[i], id)
    ensures Holds(lanes[i + 1], id)
       <==> Free(lanes[i]) && Unoutranked(lanes[i], id) && lanes[i].now >= DueAt(lanes, steps, i, id)
    ensures !Holds(lanes[i + 1], id) ==>
              && Asleep(lanes[i + 1], id)
              && lanes[i + 1].members[id].phase.timer ==
                 if Free(lanes[i]) && lanes[i].now < DueAt(lanes, steps, i, id) then Some(DueAt(lanes, steps, i, id))
                 else None
  {
    Reachable(lanes, steps, i);
    assert Follows(lanes, steps, i);
    LastFinishedIsLastRelease(lanes, steps, i);
    FreeIsIdle(lanes[i], id);
  }

  /** A request's own steps to the lane: until it is due, out of its timer, and a turn. */
  ghost function OwnSteps(lane: Lane, id: RequestId, due: Instant): seq<Step>
    requires id in lane.members
  {
    [Tick(if lane.now < due then due - lane.now else 0)]
    + (if Asleep(lane, id) then [TimeOut(id)] else []) + [Evaluate(id)]
  }

  ghost predicate Leads(lane: Lane, steps: seq<Step>, to: Lane)
    decreases |steps|
  {
    if steps == [] then lane == to
    else Enabled(lane, steps[0]) && Leads(Next(lane, steps[0]), steps[1..], to)
  }

  /** A free lane is never stuck: a request that nobody outranks gets the lane by its own steps alone, in at
      most three, waiting no longer than its interval since the last release asks. */
  lemma {:induction false} FreeLaneGrants(lanes: seq<Lane>, steps: seq<Step>, i: nat, id: RequestId) returns (to: Lane)
    requires Run(lanes, steps) && i < |lanes|
    requires Inside(lanes[i], id) && Free(lanes[i]) && Unoutranked(lanes[i], id)
    ensures Leads(lanes[i], OwnSteps(lanes[i], id, DueAt(lanes, steps, i, id)), to) && Holds(to, id)
    ensures |OwnSteps(lanes[i], id, DueAt(lanes, steps, i, id))| <= 3
  {
    Reachable(lanes, steps, i);
    LastFinishedIsLastRelease(lanes, steps, i);
    var lane, due := lanes[i], DueAt(lanes, steps, i, id);
    FreeIsIdle(lane, id);
    var wait := Tick(if lane.now < due then due - lane.now else 0);
    var ticked := Next(lane, wait);
    var ready := if Asleep(lane, id) then Next(ticked, TimeOut(id)) else ticked;
    assert Grants(ready, Evaluate(id));
    to := Next(ready, Evaluate(id));
    LeadsBy(ready, Evaluate(id), [], to);
    assert [Evaluate(id)] + [] == [Evaluate(id)];
    if Asleep(lane, id) {
      LeadsBy(ticked, TimeOut(id), [Evaluate(id)], to);
      LeadsBy(lane, wait, [TimeOut(id)] + [Evaluate(id)], to);
      assert OwnSteps(lane, id, due) == [wait] + ([TimeOut(id)] + [Evaluate(id)]);
    } else {
      LeadsBy(lane, wait, [Evaluate(id)], to);
      assert OwnSteps(lane, id, due) == [wait] + [Evaluate(id)];
    }
  }

  lemma {:induction false} LeadsBy(lane: Lane, step: Step, rest: seq<Step>, to: Lane)
    requires Enabled(lane, step) && Leads(Next(lane, step), rest, to)
    ensures Leads(lane, [step] + rest, to)
  {
    assert ([step] + rest)[1..] == rest;
  }

  // --- what a step moves --------------------------------------------------------------------

  /** The request a step is about; a tick is about none. */
  function Subject(step: Step): Option<RequestId> {
    if step.Tick? then None else Some(step.id)
  }

  /** A request that is not the step's own stays with its request, holds if it held, and at most wakes. */
  ghost predicate IsLeft(before: Lane, after: Lane, other: RequestId) {
    && (other in before.members <==> other in after.members)
    && (other in before.members ==>
          && after.members[other].request == before.members[other].request
          && (Holds(after, other) <==> Holds(before, other))
          && (after.members[other] == before.members[other] || (Asleep(before, other) && IsReady(after, other))))
  }

  /** A step enters, leaves or turns its own request and no other: whoever enters is ready, whoever cancels
      or releases is gone, and time passes for everybody alike. */
  lemma {:induction false} StepsMoveOne(lane: Lane, step: Step)
    requires Enabled(lane, step)
    ensures forall other: RequestId :: Some(other) != Subject(step) ==> IsLeft(lane, Next(lane, step), other)
    ensures step.Enter? ==> IsReady(Next(lane, step), step.id) && Next(lane, step).members[step.id].request == step.request
    ensures step.Evaluate? || step.TimeOut? ==>
              step.id in Next(lane, step).members
              && Next(lane, step).members[step.id].request == lane.members[step.id].request
    ensures step.TimeOut? ==>
              && lane.members[step.id].phase.timer.Some? && lane.members[step.id].phase.timer.value <= lane.now
              && IsReady(Next(lane, step), step.id)
    ensures step.Cancel? || step.Release? ==> step.id !in Next(lane, step).members
    ensures Next(lane, step).now == lane.now + if step.Tick? then step.elapsed else 0
  {
    forall other: RequestId | Some(other) != Subject(step) ensures IsLeft(lane, Next(lane, step), other) {
    }
  }

  // --- safety over whole runs ---------------------------------------------------------------

  ghost predicate SoleHolder(lane: Lane, id: RequestId) {
    Holds(lane, id) && forall other :: Holds(lane, other) ==> other == id
  }

  /** A grant finds the lane free, comes at least the request's own interval after the last
      release, and makes the request the only holder. */
  lemma {:induction false} GrantsAreSpaced(lanes: seq<Lane>, steps: seq<Step>, i: nat)
    requires Run(lanes, steps) && i < |steps| && Grants(lanes[i], steps[i])
    ensures lanes[i].now >= LastRelease(lanes, steps, i) + lanes[i].members[steps[i].id].request.minimumInterval
    ensures forall id :: !Holds(lanes[i], id)
    ensures SoleHolder(lanes[i + 1], steps[i].id)
  {
    Reachable(lanes, steps, i);
    Reachable(lanes, steps, i + 1);
    assert Follows(lanes, steps, i);
    LastFinishedIsLastRelease(lanes, steps, i);
    assert Holds(lanes[i + 1], steps[i].id);
  }

  lemma {:induction false} HolderStays(lane: Lane, step: Step, id: RequestId)
    requires Inv(lane) && Enabled(lane, step) && Holds(lane, id) && step != Release(id)
    ensures Holds(Next(lane, step), id) && !Grants(lane, step)
  {
  }

  /** Two grants never overlap: the first request releases before the second is granted. */
  lemma {:induction false} CallsNeverOverlap(lanes: seq<Lane>, steps: seq<Step>, i: nat, j: nat) returns (k: nat)
    requires Run(lanes, steps) && i < j < |steps|
    requires Grants(lanes[i], steps[i]) && Grants(lanes[j], steps[j])
    ensures i < k < j && steps[k] == Release(steps[i].id)
  {
    k := i + 1;
    GrantsAreSpaced(lanes, steps, i);
    while k < j && steps[k] != Release(steps[i].id)
      invariant i < k <= j && Holds(lanes[k], steps[i].id)
    {
      Reachable(lanes, steps, k);
      assert Follows(lanes, steps, k);
      HolderStays(lanes[k], steps[k], steps[i].id);
      k := k + 1;
    }
    if k == j {
      Reachable(lanes, steps, j);
      GrantsAreSpaced(lanes, steps, j);
    }
  }

  /** While an interactive request waits, no background request is granted: at most the call
      already running goes before it. */
  lemma {:induction false} InteractiveFirst(lanes: seq<Lane>, steps: seq<Step>, i: nat, waiting: RequestId)
    requires Run(lanes, steps) && i < |steps|
    requires Inside(lanes[i], waiting) && Interactive(lanes[i], waiting) && Grants(lanes[i], steps[i])
    ensures Interactive(lanes[i], steps[i].id)
  {
    Reachable(lanes, steps, i);
    assert Follows(lanes, steps, i);
    assert waiting in Counted(lanes[i].members);
  }
}
