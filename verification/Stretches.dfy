/** Everything an interval prints beside its state, read off the raw spans: the widest time its state was
    assumed, its observations, and the collections it cites. */
module Stretches {
  import opened Prelude
  import opened Intervals
  import opened IslandRuns
  import opened ExactCover
  import opened TiedRows

  /** A maximal run of equal digests: the spans from `a` up to `b`. */
  predicate IsStretch(spans: seq<Span>, a: nat, b: nat) {
    && a < b <= |spans| && Opens(spans, a)
    && (forall i :: a < i < b ==> !Opens(spans, i))
    && (b < |spans| ==> Opens(spans, b))
  }

  /** The time between two neighbouring spans in which nothing was observed. */
  function Hole(spans: seq<Span>, i: nat): int
    requires 0 < i < |spans|
  {
    spans[i].firstObserved - spans[i - 1].lastObserved
  }

  /** The largest of zero, the holes inside a stretch, and the time from its last observation to `end`,
      until which it is carried on. */
  ghost predicate IsLongestGap(spans: seq<Span>, a: nat, b: nat, end: Instant, gap: int)
    requires IsStretch(spans, a, b)
  {
    var carried := end - LastSeen(spans, b);
    && 0 <= gap && carried <= gap && (forall i :: a < i < b ==> Hole(spans, i) <= gap)
    && (gap == 0 || gap == carried || exists i :: a < i < b && Hole(spans, i) == gap)
  }

  ghost predicate IsLeast(value: Instant, spans: seq<Span>, a: nat, b: nat, of: Span -> Instant)
    requires b <= |spans|
  {
    (forall i :: a <= i < b ==> value <= of(spans[i])) && exists i :: a <= i < b && value == of(spans[i])
  }

  ghost predicate IsGreatest(value: Instant, spans: seq<Span>, a: nat, b: nat, of: Span -> Instant)
    requires b <= |spans|
  {
    (forall i :: a <= i < b ==> of(spans[i]) <= value) && exists i :: a <= i < b && value == of(spans[i])
  }

  /** The instant a stretch stops being the best answer. */
  function StretchEnd(spans: seq<Span>, b: nat, asOf: Instant): Instant
    requires 0 < b <= |spans|
  {
    if b < |spans| then spans[b].firstObserved else Min(LastSeen(spans, b), asOf)
  }

  /** Does the window print a piece with these ends? */
  predicate Prints(startsAt: Instant, endsAt: Instant, windowFrom: Instant) {
    windowFrom < endsAt || (windowFrom == endsAt && windowFrom == startsAt)
  }

  /** The interval says of a stretch everything the page prints. */
  ghost predicate Tells(i: Interval, spans: seq<Span>, a: nat, b: nat, windowFrom: Instant)
    requires IsStretch(spans, a, b)
  {
    && i.state == Observed && i.digest == spans[a].digest && i.startsAt == Max(spans[a].firstObserved, windowFrom)
    && i.observations == Observations(spans, b) - Observations(spans, a)
    && i.firstCollected.Some? && IsLeast(i.firstCollected.value, spans, a, b, (s: Span) => s.firstCollected)
    && i.lastCollected.Some? && IsGreatest(i.lastCollected.value, spans, a, b, (s: Span) => s.lastCollected)
    && (exists gap :: IsLongestGap(spans, a, b, i.endsAt, gap)
          && i.longestGap == if spans[a].firstObserved < windowFrom then Min(gap, i.Duration()) else gap)
  }

  /** An interval nobody observed: all of it is assumed, and it cites no collection. */
  predicate IsEmpty(i: Interval) {
    && i.state != Observed && i.digest == None && i.observations == 0
    && i.longestGap == i.Duration() && i.firstCollected == None && i.lastCollected == None
  }

  // --- the runs are the stretches ------------------------------------------------------------

  /** The spans that open a stretch, among the first `n`. */
  function Openings(spans: seq<Span>, n: nat): (openings: seq<nat>)
    requires n <= |spans|
    ensures forall k :: 0 <= k < |openings| ==> openings[k] < n
  {
    if n == 0 then [] else Openings(spans, n - 1) + if Opens(spans, n - 1) then [n - 1] else []
  }

  function CloseOf(openings: seq<nat>, k: nat, n: nat): nat
    requires k < |openings|
  {
    if k + 1 < |openings| then openings[k + 1] else n
  }

  /** The spans from `a` up to `b` are one run among the first `n`. */
  predicate IsRun(spans: seq<Span>, a: nat, b: nat, n: nat) {
    && a < b <= n <= |spans| && Opens(spans, a)
    && (forall i :: a < i < b ==> !Opens(spans, i))
    && (b < n ==> Opens(spans, b))
  }

  lemma {:induction false} OpeningsAreRuns(spans: seq<Span>, n: nat)
    requires n <= |spans|
    ensures |Openings(spans, n)| == |Runs(spans, n)|
    ensures forall k :: 0 <= k < |Openings(spans, n)| ==>
              IsRun(spans, Openings(spans, n)[k], CloseOf(Openings(spans, n), k, n), n)
    ensures forall i :: 0 <= i < n && Opens(spans, i) ==> i in Openings(spans, n)
  {
    if n > 0 {
      OpeningsAreRuns(spans, n - 1);
    }
  }

  ghost predicate GapOf(innerGap: Option<int>, spans: seq<Span>, a: nat, b: nat)
    requires a < b <= |spans|
  {
    && (forall i :: a < i < b ==> innerGap.Some? && Hole(spans, i) <= innerGap.value)
    && (innerGap.Some? ==> exists i :: a < i < b && Hole(spans, i) == innerGap.value)
  }

  /** A row holds what the spans from `a` up to `b` say. */
  ghost predicate Holds(run: Island, spans: seq<Span>, a: nat, b: nat)
    requires a < b <= |spans|
  {
    && run.digest == spans[a].digest && run.startsAt == spans[a].firstObserved
    && run.observations == Observations(spans, b) - Observations(spans, a)
    && run.lastObserved == LastSeen(spans, b)
    && IsLeast(run.firstCollected, spans, a, b, (s: Span) => s.firstCollected)
    && IsGreatest(run.lastCollected, spans, a, b, (s: Span) => s.lastCollected)
    && GapOf(run.innerGap, spans, a, b)
  }

  lemma {:induction false} AloneHolds(spans: seq<Span>, a: nat)
    requires a < |spans| && Opens(spans, a)
    ensures Holds(Alone(spans[a]), spans, a, a + 1)
  {
    assert Observations(spans, a + 1) == Observations(spans, a) + spans[a].observations;
  }

  lemma {:induction false} WidenHolds(run: Island, spans: seq<Span>, a: nat, b: nat)
    requires a < b < |spans| && !Opens(spans, b) && Holds(run, spans, a, b)
    ensures Holds(Widen(run, spans[b - 1], spans[b]), spans, a, b + 1)
  {
    var wide, hole := Widen(run, spans[b - 1], spans[b]), Hole(spans, b);
    assert LastSeen(spans, b + 1) == Max(LastSeen(spans, b), spans[b].lastObserved);
    assert IsLeast(wide.firstCollected, spans, a, b + 1, (s: Span) => s.firstCollected) by {
      assert wide.firstCollected == Min(run.firstCollected, spans[b].firstCollected);
    }
    assert IsGreatest(wide.lastCollected, spans, a, b + 1, (s: Span) => s.lastCollected) by {
      assert wide.lastCollected == Max(run.lastCollected, spans[b].lastCollected);
    }
    assert wide.innerGap == MaxGap(run.innerGap, Some(hole));
  }

  /** Each of these rows holds what the spans from its opening to the next one say. */
  ghost predicate AllHold(runs: seq<Island>, openings: seq<nat>, spans: seq<Span>, n: nat) {
    |runs| == |openings| && forall k :: 0 <= k < |runs| ==> HoldsAt(runs, openings, spans, n, k)
  }

  ghost predicate HoldsAt(runs: seq<Island>, openings: seq<nat>, spans: seq<Span>, n: nat, k: nat)
    requires k < |runs| == |openings|
  {
    openings[k] < CloseOf(openings, k, n) <= |spans| && Holds(runs[k], spans, openings[k], CloseOf(openings, k, n))
  }

  lemma {:induction false} OneMoreHolds(runs: seq<Island>, openings: seq<nat>, spans: seq<Span>, n: nat, m: nat)
    requires m == n + 1 <= |spans| && Opens(spans, n) && AllHold(runs, openings, spans, n)
    requires forall k :: 0 <= k < |openings| ==> openings[k] < n
    ensures AllHold(runs + [Alone(spans[n])], openings + [n], spans, m)
  {
    var more, all := runs + [Alone(spans[n])], openings + [n];
    AloneHolds(spans, n);
    forall k | 0 <= k < |more| ensures HoldsAt(more, all, spans, m, k) {
      if k < |runs| {
        assert HoldsAt(runs, openings, spans, n, k);
        assert CloseOf(all, k, m) == CloseOf(openings, k, n);
      }
    }
  }

  lemma {:induction false} LastWidens(runs: seq<Island>, openings: seq<nat>, spans: seq<Span>, n: nat, m: nat)
    requires 0 < n && m == n + 1 <= |spans| && !Opens(spans, n) && AllHold(runs, openings, spans, n) && runs != []
    ensures AllHold(runs[|runs| - 1 := Widen(runs[|runs| - 1], spans[n - 1], spans[n])], openings, spans, m)
  {
    var last := |runs| - 1;
    var wide := runs[last := Widen(runs[last], spans[n - 1], spans[n])];
    forall k | 0 <= k < |wide| ensures HoldsAt(wide, openings, spans, m, k) {
      assert HoldsAt(runs, openings, spans, n, k);
      if k == last {
        WidenHolds(runs[last], spans, openings[last], n);
      }
    }
  }

  lemma {:induction false} RunsHold(spans: seq<Span>, n: nat)
    requires n <= |spans|
    ensures AllHold(Runs(spans, n), Openings(spans, n), spans, n)
  {
    if n > 0 {
      var runs, openings := Runs(spans, n - 1), Openings(spans, n - 1);
      RunsHold(spans, n - 1);
      if Opens(spans, n - 1) {
        OneMoreHolds(runs, openings, spans, n - 1, n);
      } else {
        LastWidens(runs, openings, spans, n - 1, n);
        assert Openings(spans, n) == openings;
      }
    }
  }

  lemma {:induction false} IslandIsStretch(spans: seq<Span>, k: nat) returns (a: nat, b: nat)
    requires ValidSpans(spans) && k < |Islands(spans)|
    ensures IsStretch(spans, a, b) && Holds(Islands(spans)[k], spans, a, b)
    ensures k + 1 < |Islands(spans)| <==> b < |spans|
    ensures b < |spans| ==> Islands(spans)[k + 1].startsAt == spans[b].firstObserved
    ensures |Openings(spans, |spans|)| == |Islands(spans)| && Openings(spans, |spans|)[k] == a
  {
    var openings := Openings(spans, |spans|);
    IslandsAreRuns(spans);
    OpeningsAreRuns(spans, |spans|);
    a, b := openings[k], CloseOf(openings, k, |spans|);
    RunsHold(spans, |spans|);
    assert HoldsAt(Islands(spans), openings, spans, |spans|, k);
    if k + 1 < |openings| {
      assert HoldsAt(Islands(spans), openings, spans, |spans|, k + 1);
    }
  }

  /** A stretch's place among the islands. */
  lemma {:induction false} StretchAt(spans: seq<Span>, a: nat, b: nat) returns (k: nat)
    requires ValidSpans(spans) && IsStretch(spans, a, b)
    ensures k < |Islands(spans)| && Holds(Islands(spans)[k], spans, a, b)
    ensures k + 1 < |Islands(spans)| <==> b < |spans|
    ensures b < |spans| ==> Islands(spans)[k + 1].startsAt == spans[b].firstObserved
  {
    IslandsAreRuns(spans);
    OpeningsAreRuns(spans, |spans|);
    k :| 0 <= k < |Openings(spans, |spans|)| && Openings(spans, |spans|)[k] == a;
    var c, d := IslandIsStretch(spans, k);
    SameClose(spans, a, b, d);
  }

  lemma {:induction false} SameClose(spans: seq<Span>, a: nat, b: nat, c: nat)
    requires IsStretch(spans, a, b) && IsStretch(spans, a, c)
    ensures b == c
  {
    if b < c {
      assert false;
    } else if c < b {
      assert false;
    }
  }

  // --- and the intervals tell them -----------------------------------------------------------

  lemma {:induction false} HeldTells(
    spans: seq<Span>, a: nat, b: nat, rows: seq<Island>, k: nat, windowFrom: Instant, asOf: Instant)
    requires IsStretch(spans, a, b) && k < |rows| && Holds(rows[k], spans, a, b)
    ensures Tells(Clip(Held(rows, k, asOf), windowFrom), spans, a, b, windowFrom)
  {
    var held := Held(rows, k, asOf);
    LongestGapIs(spans, a, b, rows[k].innerGap, held.endsAt, held.longestGap);
  }

  lemma {:induction false} LongestGapIs(
    spans: seq<Span>, a: nat, b: nat, innerGap: Option<int>, end: Instant, gap: int)
    requires IsStretch(spans, a, b) && GapOf(innerGap, spans, a, b)
    requires gap == Max(Max(if innerGap.Some? then innerGap.value else 0, end - LastSeen(spans, b)), 0)
    ensures IsLongestGap(spans, a, b, end, gap)
  {
  }

  lemma {:induction false} EndsWithStretch(spans: seq<Span>, a: nat, b: nat, k: nat, asOf: Instant)
    requires Readable(spans, asOf) && IsStretch(spans, a, b)
    requires k < |Islands(spans)| && Holds(Islands(spans)[k], spans, a, b)
    requires k + 1 < |Islands(spans)| <==> b < |spans|
    requires b < |spans| ==> Islands(spans)[k + 1].startsAt == spans[b].firstObserved
    ensures Held(Islands(spans), k, asOf).endsAt == StretchEnd(spans, b, asOf)
  {
    SeenFrom(spans, a, b);
  }

  lemma {:induction false} SeenFrom(spans: seq<Span>, a: nat, b: nat)
    requires a < b <= |spans| && forall i :: a < i < b ==> !Opens(spans, i)
    ensures spans[a].lastObserved <= LastSeen(spans, b)
  {
    if a < b - 1 {
      SeenFrom(spans, a, b - 1);
    }
  }

  lemma {:induction false} TailIsEmpty(cursor: Instant, end: Instant, gone: seq<Window>)
    ensures forall k :: 0 <= k < |TailPieces(cursor, end, gone)| ==> IsEmpty(TailPieces(cursor, end, gone)[k])
    decreases |gone|
  {
    if gone != [] {
      TailIsEmpty(cursor, end, gone[1..]);
      TailIsEmpty(Closes(gone[0], end), end, gone[1..]);
    }
  }

  lemma {:induction false} ClipKeepsPrinted(pieces: seq<Interval>, k: nat, windowFrom: Instant)
    requires k < |pieces| && Printed(pieces[k], windowFrom)
    ensures Clip(pieces[k], windowFrom) in Clipped(pieces, windowFrom)
  {
    if k > 0 {
      ClipKeepsPrinted(pieces[1..], k - 1, windowFrom);
    }
  }

  lemma {:induction false} ClippedComesFrom(pieces: seq<Interval>, i: Interval, windowFrom: Instant) returns (k: nat)
    requires i in Clipped(pieces, windowFrom)
    ensures k < |pieces| && Printed(pieces[k], windowFrom) && i == Clip(pieces[k], windowFrom)
  {
    if Printed(pieces[0], windowFrom) && i == Clip(pieces[0], windowFrom) {
      k := 0;
    } else {
      k := ClippedComesFrom(pieces[1..], i, windowFrom);
      k := k + 1;
    }
  }

  ghost predicate TellsSome(i: Interval, spans: seq<Span>, windowFrom: Instant) {
    exists a: nat, b: nat :: IsStretch(spans, a, b) && Tells(i, spans, a, b, windowFrom)
  }

  ghost predicate IsTold(pieces: seq<Interval>, spans: seq<Span>, a: nat, b: nat, windowFrom: Instant, asOf: Instant)
    requires IsStretch(spans, a, b)
  {
    exists i :: i in pieces && Tells(i, spans, a, b, windowFrom) && i.endsAt == StretchEnd(spans, b, asOf)
  }

  /** A stretch that reaches into the window. */
  predicate Reaches(spans: seq<Span>, a: nat, b: nat, windowFrom: Instant, asOf: Instant) {
    IsStretch(spans, a, b) && Prints(spans[a].firstObserved, StretchEnd(spans, b, asOf), windowFrom)
  }

  /** In the spans' own order the cover prints every stretch that reaches into the window, up to the next
      one, with its longest gap, its observations and its collections; and in every order the query may
      return, an interval tells all that of a stretch, up to the interval's own end, or is empty. */
  lemma {:induction false} CoverTellsStretches(
    spans: seq<Span>, rows: seq<Island>, gone: seq<Window>, windowFrom: Instant, asOf: Instant)
    requires Readable(spans, asOf) && QueryResult(spans, rows) && windowFrom <= asOf
    ensures rows != [] && Islands(spans) != []
    ensures forall a: nat, b: nat :: Reaches(spans, a, b, windowFrom, asOf) ==>
              IsTold(CoverOf(Islands(spans), gone, windowFrom, asOf), spans, a, b, windowFrom, asOf)
    ensures forall i :: i in CoverOf(rows, gone, windowFrom, asOf) ==> IsEmpty(i) || TellsSome(i, spans, windowFrom)
  {
    RowsStartAlike(spans, rows, asOf);
    forall a: nat, b: nat | Reaches(spans, a, b, windowFrom, asOf)
      ensures IsTold(CoverOf(Islands(spans), gone, windowFrom, asOf), spans, a, b, windowFrom, asOf)
    {
      StretchIsTold(spans, a, b, gone, windowFrom, asOf);
    }
    forall i | i in CoverOf(rows, gone, windowFrom, asOf)
      ensures IsEmpty(i) || TellsSome(i, spans, windowFrom)
    {
      PrintedTells(spans, rows, i, gone, windowFrom, asOf);
    }
  }

  /** Where a row's interval stands before the clip. */
  lemma {:induction false} HeldStands(
    rows: seq<Island>, k: nat, gone: seq<Window>, windowFrom: Instant, asOf: Instant) returns (at: nat)
    requires k < |rows|
    ensures at < |Unclipped(rows, gone, windowFrom, asOf)|
    ensures Unclipped(rows, gone, windowFrom, asOf)[at] == Held(rows, k, asOf)
  {
    at := k + if windowFrom < rows[0].startsAt then 1 else 0;
  }

  /** A piece is a row's interval or empty. */
  lemma {:induction false} PieceIs(
    rows: seq<Island>, at: nat, gone: seq<Window>, windowFrom: Instant, asOf: Instant) returns (k: nat)
    requires rows != [] && at < |Unclipped(rows, gone, windowFrom, asOf)|
    ensures var piece := Unclipped(rows, gone, windowFrom, asOf)[at];
            if k < |rows| then piece == Held(rows, k, asOf) else IsEmpty(piece)
  {
    var opening := if windowFrom < rows[0].startsAt then 1 else 0;
    if opening <= at < opening + |rows| {
      k := at - opening;
    } else {
      k := |rows|;
      TailIsEmpty(Min(rows[|rows| - 1].lastObserved, asOf), asOf, gone);
    }
  }

  lemma {:induction false} StretchIsTold(
    spans: seq<Span>, a: nat, b: nat, gone: seq<Window>, windowFrom: Instant, asOf: Instant)
    requires Readable(spans, asOf) && Islands(spans) != [] && Reaches(spans, a, b, windowFrom, asOf)
    ensures IsTold(CoverOf(Islands(spans), gone, windowFrom, asOf), spans, a, b, windowFrom, asOf)
  {
    var islands := Islands(spans);
    var k := StretchAt(spans, a, b);
    var at := HeldStands(islands, k, gone, windowFrom, asOf);
    EndsWithStretch(spans, a, b, k, asOf);
    HeldTells(spans, a, b, islands, k, windowFrom, asOf);
    ClipKeepsPrinted(Unclipped(islands, gone, windowFrom, asOf), at, windowFrom);
  }

  lemma {:induction false} PrintedTells(
    spans: seq<Span>, rows: seq<Island>, i: Interval, gone: seq<Window>, windowFrom: Instant, asOf: Instant)
    requires Readable(spans, asOf) && QueryResult(spans, rows) && rows != []
    requires i in CoverOf(rows, gone, windowFrom, asOf)
    ensures IsEmpty(i) || TellsSome(i, spans, windowFrom)
  {
    var at := ClippedComesFrom(Unclipped(rows, gone, windowFrom, asOf), i, windowFrom);
    var k := PieceIs(rows, at, gone, windowFrom, asOf);
    if k < |rows| {
      var j := PlaceOf(Islands(spans), rows, k);
      var a, b := IslandIsStretch(spans, j);
      HeldTells(spans, a, b, rows, k, windowFrom, asOf);
    }
  }
}
