/** The serial lane: one call at a time, interactive requests before background ones, and a pause
    between calls. A request inside `acquire` runs from one suspension point to the next as one
    step, holding the condition's lock; the event loop may take any enabled step. */
module SerialLane {
  import opened Prelude

  type RequestId = nat

  datatype Request = Request(background: bool, minimumInterval: int)

  /** Where a request is: runnable inside `acquire`, parked on the condition with or without a
      timer, or past `acquire` and making its call. */
  datatype Phase = Ready | Sleeping(timer: Option<Instant>) | Holding

  datatype Member = Member(request: Request, phase: Phase)

  type Members = map<RequestId, Member>

  /** The lane, the event loop's clock, and every request between `acquire` and `release`. */
  datatype Lane = Lane(busy: bool, interactiveWaiters: int, lastFinished: Instant, now: Instant, members: Members)

  datatype Step =
    | Enter(id: RequestId, request: Request)
    | Evaluate(id: RequestId)
    | TimeOut(id: RequestId)
    | Cancel(id: RequestId)
    | Release(id: RequestId)
    | Tick(elapsed: nat)

  function Start(now: Instant): Lane {
    Lane(false, 0, 0, now, map[])
  }

  // --- one request -------------------------------------------------------------------------

  predicate Inside(lane: Lane, id: RequestId) {
    id in lane.members && lane.members[id].phase != Holding
  }

  predicate Holds(lane: Lane, id: RequestId) {
    id in lane.members && lane.members[id].phase == Holding
  }

  predicate IsReady(lane: Lane, id: RequestId) {
    id in lane.members && lane.members[id].phase == Ready
  }

  predicate Asleep(lane: Lane, id: RequestId) {
    id in lane.members && lane.members[id].phase.Sleeping?
  }

  predicate Interactive(lane: Lane, id: RequestId) {
    id in lane.members && !lane.members[id].request.background
  }

  /** `max(0, last_finished + minimum_interval - loop.time())`. */
  function Pause(lane: Lane, request: Request): int {
    Max(0, lane.lastFinished + request.minimumInterval - lane.now)
  }

  predicate Grantable(lane: Lane, request: Request) {
    !lane.busy && (!request.background || lane.interactiveWaiters == 0) && Pause(lane, request) == 0
  }

  /** The `delay` a refused request waits with: a timer only for a pause on a free lane. */
  function Timer(lane: Lane, request: Request): Option<Instant> {
    var pause := Pause(lane, request);
    if pause != 0 && !lane.busy then Some(lane.now + pause) else None
  }

  function Weight(request: Request): int {
    if request.background then 0 else 1
  }

  /** `notify_all`: every sleeper becomes runnable. */
  function Notified(members: Members): Members {
    map id | id in members ::
      if members[id].phase.Sleeping? then members[id].(phase := Ready) else members[id]
  }

  // --- the steps ---------------------------------------------------------------------------

  predicate Enabled(lane: Lane, step: Step) {
    match step
    case Enter(id, request) => id !in lane.members
    case Evaluate(id) => IsReady(lane, id)
    case TimeOut(id) =>
      Asleep(lane, id) && lane.members[id].phase.timer.Some? && lane.members[id].phase.timer.value <= lane.now
    case Cancel(id) => Inside(lane, id)
    case Release(id) => Holds(lane, id)
    case Tick(elapsed) => true
  }

  function Next(lane: Lane, step: Step): Lane
    requires Enabled(lane, step)
  {
    match step
    case Enter(id, request) =>
      lane.(interactiveWaiters := lane.interactiveWaiters + Weight(request),
            members := lane.members[id := Member(request, Ready)])
    case Evaluate(id) =>
      var request := lane.members[id].request;
      if Grantable(lane, request) then
        lane.(busy := true,
              interactiveWaiters := lane.interactiveWaiters - Weight(request),
              members := Notified(lane.members[id := Member(request, Holding)]))
      else
        lane.(members := lane.members[id := Member(request, Sleeping(Timer(lane, request)))])
    case TimeOut(id) =>
      lane.(members := lane.members[id := lane.members[id].(phase := Ready)])
    case Cancel(id) =>
      lane.(interactiveWaiters := lane.interactiveWaiters - Weight(lane.members[id].request),
            members := Notified(lane.members - {id}))
    case Release(id) =>
      lane.(busy := false, lastFinished := lane.now, members := Notified(lane.members - {id}))
    case Tick(elapsed) => lane.(now := lane.now + elapsed)
  }

  predicate Grants(lane: Lane, step: Step) {
    step.Evaluate? && IsReady(lane, step.id) && Grantable(lane, lane.members[step.id].request)
  }

  // --- the class, segment by segment --------------------------------------------------------

  /** `_SerialLane`, with the tasks its condition knows. Each method is one uninterrupted segment
      of `acquire` or `release`, and takes the machine's step. */
  class Condition {
    var busy: bool
    var interactiveWaiters: int
    var lastFinished: Instant
    var members: Members

    ghost function At(now: Instant): Lane
      reads this
    {
      Lane(busy, interactiveWaiters, lastFinished, now, members)
    }

    constructor ()
      ensures forall now :: At(now) == Start(now)
    {
      busy, interactiveWaiters, lastFinished, members := false, 0, 0, map[];
    }

    method NotifyAll()
      modifies `members
      ensures members == Notified(old(members))
    {
      members := map id | id in members ::
        if members[id].phase.Sleeping? then members[id].(phase := Ready) else members[id];
    }

    method Begin(id: RequestId, request: Request, ghost now: Instant)
      requires Enabled(At(now), Enter(id, request))
      modifies this
      ensures At(now) == Next(old(At(now)), Enter(id, request))
    {
      if !request.background {
        interactiveWaiters := interactiveWaiters + 1;
      }
      members := members[id := Member(request, Ready)];
    }

    /** `finally` of `acquire`, on the way out by grant or by cancellation. */
    method Leave(request: Request)
      modifies `interactiveWaiters, `members
      ensures interactiveWaiters == old(interactiveWaiters) - Weight(request)
      ensures members == Notified(old(members))
    {
      if !request.background {
        interactiveWaiters := interactiveWaiters - 1;
      }
      NotifyAll();
    }

    /** One turn of `acquire`'s loop: granted, or asleep again. */
    method Turn(id: RequestId, now: Instant) returns (granted: bool)
      requires Enabled(At(now), Evaluate(id))
      modifies this
      ensures granted == old(Grants(At(now), Evaluate(id)))
      ensures At(now) == Next(old(At(now)), Evaluate(id))
    {
      var request := members[id].request;
      var pause := Max(0, lastFinished + request.minimumInterval - now);
      if !busy && (!request.background || interactiveWaiters == 0) && pause == 0 {
        busy := true;
        members := members[id := Member(request, Holding)];
        Leave(request);
        return true;
      }
      var delay := if pause != 0 && !busy then Some(now + pause) else None;
      members := members[id := Member(request, Sleeping(delay))];
      granted := false;
    }

    method Abandon(id: RequestId, ghost now: Instant)
      requires Enabled(At(now), Cancel(id))
      modifies this
      ensures At(now) == Next(old(At(now)), Cancel(id))
    {
      var request := members[id].request;
      members := members - {id};
      Leave(request);
    }

    method Finish(id: RequestId, now: Instant)
      requires Enabled(At(now), Release(id))
      modifies this
      ensures At(now) == Next(old(At(now)), Release(id))
    {
      busy := false;
      lastFinished := now;
      members := members - {id};
      NotifyAll();
    }
  }

  // --- what every step keeps ----------------------------------------------------------------

  /** The interactive requests inside `acquire`. */
  function Counted(members: Members): set<RequestId> {
    set id | id in members && members[id].phase != Holding && !members[id].request.background
  }

  ghost predicate OneHolder(lane: Lane) {
    && (lane.busy <==> exists id :: Holds(lane, id))
    && (forall a, b :: Holds(lane, a) && Holds(lane, b) ==> a == b)
  }

  /** A timer runs to the end of the request's own pause, on a free lane; no sleeper without a
      timer but one a holder or a counted interactive request keeps waiting. */
  ghost predicate SleepersBlocked(lane: Lane) {
    forall id :: Asleep(lane, id) ==>
      var member := lane.members[id];
      match member.phase.timer
      case Some(deadline) => !lane.busy && deadline == lane.lastFinished + member.request.minimumInterval
      case None => lane.busy || (member.request.background && Counted(lane.members) != {})
  }

  ghost predicate Inv(lane: Lane) {
    && OneHolder(lane)
    && lane.interactiveWaiters == |Counted(lane.members)|
    && SleepersBlocked(lane)
  }

  lemma {:induction false} CountedOfNotified(members: Members)
    ensures Counted(Notified(members)) == Counted(members)
  {
  }

  lemma {:induction false} NotifiedSleeps(lane: Lane, members: Members)
    requires lane.members == Notified(members)
    ensures forall id :: !Asleep(lane, id)
    ensures forall id :: Holds(lane, id) <==> Holds(lane.(members := members), id)
  {
  }

  lemma {:induction false} CountedOfOne(members: Members, id: RequestId, member: Member)
    ensures Counted(members[id := member])
            == if member.phase != Holding && !member.request.background then Counted(members) + {id}
               else Counted(members) - {id}
  {
  }

  lemma {:induction false} EnterKeeps(lane: Lane, id: RequestId, request: Request)
    requires Inv(lane) && Enabled(lane, Enter(id, request))
    ensures Inv(Next(lane, Enter(id, request)))
  {
    var next := Next(lane, Enter(id, request));
    CountedOfOne(lane.members, id, Member(request, Ready));
    assert forall other :: Holds(next, other) <==> Holds(lane, other);
    assert forall other :: Asleep(next, other) <==> Asleep(lane, other);
  }

  lemma {:induction false} GrantKeeps(lane: Lane, id: RequestId)
    requires Inv(lane) && Grants(lane, Evaluate(id))
    ensures Inv(Next(lane, Evaluate(id)))
  {
    var next, request := Next(lane, Evaluate(id)), lane.members[id].request;
    var granted := lane.members[id := Member(request, Holding)];
    CountedOfOne(lane.members, id, Member(request, Holding));
    CountedOfNotified(granted);
    NotifiedSleeps(next, granted);
    forall other | Holds(next, other)
      ensures other == id
    {
      assert Holds(next.(members := granted), other);
      assert !Holds(lane, other);
    }
    assert Holds(next.(members := granted), id);
    assert Holds(next, id);
  }

  lemma {:induction false} SleepKeeps(lane: Lane, id: RequestId)
    requires Inv(lane) && Enabled(lane, Evaluate(id)) && !Grants(lane, Evaluate(id))
    ensures Inv(Next(lane, Evaluate(id)))
  {
    var next, request := Next(lane, Evaluate(id)), lane.members[id].request;
    CountedOfOne(lane.members, id, Member(request, Sleeping(Timer(lane, request))));
    assert Counted(next.members) == Counted(lane.members);
    assert forall other :: Holds(next, other) <==> Holds(lane, other);
  }

  lemma {:induction false} TimeOutKeeps(lane: Lane, id: RequestId)
    requires Inv(lane) && Enabled(lane, TimeOut(id))
    ensures Inv(Next(lane, TimeOut(id)))
  {
    var next := Next(lane, TimeOut(id));
    CountedOfOne(lane.members, id, lane.members[id].(phase := Ready));
    assert Counted(next.members) == Counted(lane.members);
    assert forall other :: Holds(next, other) <==> Holds(lane, other);
  }

  lemma {:induction false} CancelKeeps(lane: Lane, id: RequestId)
    requires Inv(lane) && Enabled(lane, Cancel(id))
    ensures Inv(Next(lane, Cancel(id)))
  {
    var next, left := Next(lane, Cancel(id)), lane.members - {id};
    assert Counted(left) == Counted(lane.members) - {id};
    CountedOfNotified(left);
    NotifiedSleeps(next, left);
    assert forall other :: Holds(next, other) <==> Holds(lane, other);
  }

  lemma {:induction false} ReleaseKeeps(lane: Lane, id: RequestId)
    requires Inv(lane) && Enabled(lane, Release(id))
    ensures Inv(Next(lane, Release(id)))
  {
    var next, left := Next(lane, Release(id)), lane.members - {id};
    assert Counted(left) == Counted(lane.members);
    CountedOfNotified(left);
    NotifiedSleeps(next, left);
    forall other
      ensures !Holds(next, other)
    {
      if Holds(next, other) {
        assert Holds(next.(members := left), other);
        assert Holds(lane, other) && Holds(lane, id);
      }
    }
  }

  lemma {:induction false} TickKeeps(lane: Lane, elapsed: nat)
    requires Inv(lane)
    ensures Inv(Next(lane, Tick(elapsed)))
  {
    var next := Next(lane, Tick(elapsed));
    assert forall other :: Holds(next, other) <==> Holds(lane, other);
    assert forall other :: Asleep(next, other) <==> Asleep(lane, other);
  }

  /** Every step keeps the lane's promises: one holder, an exact count, and no sleeper forgotten. */
  lemma {:induction false} StepKeeps(lane: Lane, step: Step)
    requires Inv(lane) && Enabled(lane, step)
    ensures Inv(Next(lane, step))
  {
    match step
    case Enter(id, request) => EnterKeeps(lane, id, request);
    case Evaluate(id) => if Grants(lane, step) { GrantKeeps(lane, id); } else { SleepKeeps(lane, id); }
    case TimeOut(id) => TimeOutKeeps(lane, id);
    case Cancel(id) => CancelKeeps(lane, id);
    case Release(id) => ReleaseKeeps(lane, id);
    case Tick(elapsed) => TickKeeps(lane, elapsed);
  }
}
