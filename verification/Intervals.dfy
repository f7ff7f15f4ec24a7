/** The interval query: one subject's observation spans read as a closed, labelled cover of a
    report window. Spans are coalesced by gaps-and-islands, carried forward between
    observations, cut by departure windows in the tail, and clipped at the window's opening. */
module Intervals {
  import opened Prelude
  import Documents

  type Digest = string

  /** One row of `observation_spans`, read for one section; the digest is `None` for SQL's NULL. */
  datatype Span = Span(
    digest: Option<Digest>,
    firstObserved: Instant,
    lastObserved: Instant,
    firstCollected: Instant,
    lastCollected: Instant,
    observations: nat)

  /** The order of the query's window `w`, and the ledger's own promise on every row. */
  ghost predicate ValidSpans(spans: seq<Span>) {
    && (forall i :: 0 <= i < |spans| ==> spans[i].firstObserved <= spans[i].lastObserved)
    && (forall i, j :: 0 <= i < j < |spans| ==> spans[i].firstObserved <= spans[j].firstObserved)
  }

  // --- the query ---------------------------------------------------------------------------

  /** A row of the `marked` step: the running island number, and the gap inside the island. */
  datatype Marked = Marked(span: Span, island: nat, innerGap: Option<int>)

  /** `IS NOT DISTINCT FROM lag(...)`: on the first row the lag is NULL, so a NULL digest there
      already counts as the same. */
  predicate Same(spans: seq<Span>, i: nat)
    requires i < |spans|
  {
    spans[i].digest == if i == 0 then None else spans[i - 1].digest
  }

  /** `sum(CASE WHEN same THEN 0 ELSE 1 END) OVER w`, as the running sum it is. */
  function IslandNumber(spans: seq<Span>, i: nat): nat
    requires i < |spans|
  {
    (if i == 0 then 0 else IslandNumber(spans, i - 1)) + (if Same(spans, i) then 0 else 1)
  }

  /** `CASE WHEN same THEN first_observed_at - prior_last END`; NULL on the first row either way. */
  function InnerGap(spans: seq<Span>, i: nat): Option<int>
    requires i < |spans|
  {
    if Same(spans, i) && i > 0 then Some(spans[i].firstObserved - spans[i - 1].lastObserved) else None
  }

  function Mark(spans: seq<Span>): (marked: seq<Marked>)
    ensures |marked| == |spans|
  {
    seq(|spans|, i requires 0 <= i < |spans| => Marked(spans[i], IslandNumber(spans, i), InnerGap(spans, i)))
  }

  /** One coalesced stretch: the aggregates of one `GROUP BY subject_id, island` group. */
  datatype Island = Island(
    digest: Option<Digest>,
    startsAt: Instant,
    lastObserved: Instant,
    firstCollected: Instant,
    lastCollected: Instant,
    observations: nat,
    innerGap: Option<int>)

  /** SQL's `min` over text ignores NULL. */
  function MinDigest(a: Option<Digest>, b: Option<Digest>): Option<Digest> {
    if a.None? then b
    else if b.None? then a
    else if Documents.Less(b.value, a.value) then b else a
  }

  /** SQL's `max` over an interval ignores NULL. */
  function MaxGap(a: Option<int>, b: Option<int>): Option<int> {
    if a.None? then b else if b.None? then a else Some(Max(a.value, b.value))
  }

  function Single(row: Marked): Island {
    Island(row.span.digest, row.span.firstObserved, row.span.lastObserved,
           row.span.firstCollected, row.span.lastCollected, row.span.observations, row.innerGap)
  }

  function Absorb(island: Island, row: Marked): Island {
    Island(
      MinDigest(island.digest, row.span.digest),
      Min(island.startsAt, row.span.firstObserved),
      Max(island.lastObserved, row.span.lastObserved),
      Min(island.firstCollected, row.span.firstCollected),
      Max(island.lastCollected, row.span.lastCollected),
      island.observations + row.span.observations,
      MaxGap(island.innerGap, row.innerGap))
  }

  /** The aggregates of the group numbered `number` over the first `n` rows, or `None` where no
      row carries it. */
  function Group(marked: seq<Marked>, n: nat, number: nat): Option<Island>
    requires n <= |marked|
  {
    if n == 0 then None
    else
      var before := Group(marked, n - 1, number);
      if marked[n - 1].island != number then before
      else if before.None? then Some(Single(marked[n - 1]))
      else Some(Absorb(before.value, marked[n - 1]))
  }

  /** The groups numbered below `end`, in number order; a number no row carries is no group. */
  function Groups(marked: seq<Marked>, n: nat, end: nat): seq<Island>
    requires n <= |marked|
  {
    if end == 0 then []
    else
      var group := Group(marked, n, end - 1);
      Groups(marked, n, end - 1) + if group.None? then [] else [group.value]
  }

  /** The query's groups for one subject, in the order of the window. */
  function Islands(spans: seq<Span>): seq<Island> {
    if spans == [] then []
    else Groups(Mark(spans), |spans|, IslandNumber(spans, |spans| - 1) + 1)
  }

  // --- the cover ---------------------------------------------------------------------------

  datatype State = Observed | NotObserved | Departed

  datatype Interval = Interval(
    state: State,
    digest: Option<Digest>,
    startsAt: Instant,
    endsAt: Instant,
    observations: nat,
    longestGap: int,
    firstCollected: Option<Instant>,
    lastCollected: Option<Instant>)
  {
    function Duration(): int {
      endsAt - startsAt
    }
  }

  /** A departure: when it began, and when a census named the id again, if one did. */
  datatype Window = Window(departedAt: Instant, endedAt: Option<Instant>)

  ghost predicate OldestFirst(gone: seq<Window>) {
    forall i, j :: 0 <= i < j < |gone| ==> gone[i].departedAt <= gone[j].departedAt
  }

  function Gap(state: State, opens: Instant, closes: Instant): Interval {
    Interval(state, None, opens, closes, 0, closes - opens, None, None)
  }

  function Closes(window: Window, end: Instant): Instant {
    Min(if window.endedAt.Some? then window.endedAt.value else end, end)
  }

  /** The tail from the cursor on: what the loop of `Tail` still has to print. */
  function TailPieces(cursor: Instant, end: Instant, gone: seq<Window>): seq<Interval>
    decreases |gone|
  {
    if gone == [] then
      if cursor < end then [Gap(NotObserved, cursor, end)] else []
    else
      var opens, closes := Max(gone[0].departedAt, cursor), Closes(gone[0], end);
      if closes <= opens then TailPieces(cursor, end, gone[1..])
      else
        (if cursor < opens then [Gap(NotObserved, cursor, opens)] else [])
        + [Gap(Departed, opens, closes)]
        + TailPieces(closes, end, gone[1..])
  }

  method Tail(start: Instant, end: Instant, gone: seq<Window>) returns (pieces: seq<Interval>)
    ensures pieces == TailPieces(start, end, gone)
  {
    pieces := [];
    var cursor := start;
    for i := 0 to |gone|
      invariant pieces + TailPieces(cursor, end, gone[i..]) == TailPieces(start, end, gone)
    {
      var opens, closes := Max(gone[i].departedAt, cursor), Closes(gone[i], end);
      assert gone[i..][0] == gone[i] && gone[i..][1..] == gone[i + 1..];
      if closes <= opens {
        continue;
      }
      if cursor < opens {
        pieces := pieces + [Gap(NotObserved, cursor, opens)];
      }
      pieces := pieces + [Gap(Departed, opens, closes)];
      cursor := closes;
    }
    if cursor < end {
      pieces := pieces + [Gap(NotObserved, cursor, end)];
    }
  }

  /** Where island `k` stops being the best answer: the next island's first observation, or the
      last island's own last observation, held inside `[starts_at, as_of]`. */
  function IslandEnd(islands: seq<Island>, k: nat, asOf: Instant): Instant
    requires k < |islands|
  {
    var ends := if k + 1 < |islands| then islands[k + 1].startsAt else islands[k].lastObserved;
    Min(Max(ends, islands[k].startsAt), asOf)
  }

  function Held(islands: seq<Island>, k: nat, asOf: Instant): Interval
    requires k < |islands|
  {
    var island, ends := islands[k], IslandEnd(islands, k, asOf);
    var inner := if island.innerGap.Some? then island.innerGap.value else 0;
    Interval(Observed, island.digest, island.startsAt, ends, island.observations,
             Max(Max(inner, ends - island.lastObserved), 0),
             Some(island.firstCollected), Some(island.lastCollected))
  }

  function Heads(islands: seq<Island>, count: nat, asOf: Instant): seq<Interval>
    requires count <= |islands|
  {
    seq(count, k requires 0 <= k < count => Held(islands, k, asOf))
  }

  /** Everything the cover prints, before the clip. */
  function Unclipped(islands: seq<Island>, gone: seq<Window>, windowFrom: Instant, asOf: Instant): seq<Interval>
    requires islands != []
  {
    (if windowFrom < islands[0].startsAt then [Gap(NotObserved, windowFrom, islands[0].startsAt)] else [])
    + Heads(islands, |islands|, asOf)
    + TailPieces(Min(islands[|islands| - 1].lastObserved, asOf), asOf, gone)
  }

  function Clip(i: Interval, windowFrom: Instant): Interval {
    if i.startsAt >= windowFrom then i
    else i.(startsAt := windowFrom, longestGap := Min(i.longestGap, i.endsAt - windowFrom))
  }

  predicate Printed(i: Interval, windowFrom: Instant) {
    i.endsAt > windowFrom || (i.endsAt == windowFrom == i.startsAt)
  }

  function Clipped(pieces: seq<Interval>, windowFrom: Instant): seq<Interval> {
    if pieces == [] then []
    else
      (if Printed(pieces[0], windowFrom) then [Clip(pieces[0], windowFrom)] else [])
      + Clipped(pieces[1..], windowFrom)
  }

  function CoverOf(islands: seq<Island>, gone: seq<Window>, windowFrom: Instant, asOf: Instant): seq<Interval>
    requires islands != []
  {
    Clipped(Unclipped(islands, gone, windowFrom, asOf), windowFrom)
  }

  method ClipAll(pieces: seq<Interval>, windowFrom: Instant) returns (intervals: seq<Interval>)
    ensures intervals == Clipped(pieces, windowFrom)
  {
    intervals := [];
    for i := 0 to |pieces|
      invariant intervals + Clipped(pieces[i..], windowFrom) == Clipped(pieces, windowFrom)
    {
      assert pieces[i..][0] == pieces[i] && pieces[i..][1..] == pieces[i + 1..];
      if Printed(pieces[i], windowFrom) {
        intervals := intervals + [Clip(pieces[i], windowFrom)];
      }
    }
  }

  method Cover(islands: seq<Island>, gone: seq<Window>, windowFrom: Instant, asOf: Instant)
    returns (intervals: seq<Interval>)
    requires islands != []
    ensures intervals == CoverOf(islands, gone, windowFrom, asOf)
  {
    var out := [];
    if windowFrom < islands[0].startsAt {
      out := [Gap(NotObserved, windowFrom, islands[0].startsAt)];
    }
    ghost var head := out;
    for index := 0 to |islands|
      invariant out == head + Heads(islands, index, asOf)
    {
      var island := islands[index];
      var endsAt := if index + 1 < |islands| then islands[index + 1].startsAt else island.lastObserved;
      endsAt := Min(Max(endsAt, island.startsAt), asOf);
      var inner := if island.innerGap.Some? then island.innerGap.value else 0;
      var held := Interval(Observed, island.digest, island.startsAt, endsAt, island.observations,
                           Max(Max(inner, endsAt - island.lastObserved), 0),
                           Some(island.firstCollected), Some(island.lastCollected));
      assert held == Held(islands, index, asOf);
      assert Heads(islands, index + 1, asOf) == Heads(islands, index, asOf) + [held];
      out := out + [held];
    }
    var tail := Tail(Min(islands[|islands| - 1].lastObserved, asOf), asOf, gone);
    intervals := ClipAll(out + tail, windowFrom);
  }
}
