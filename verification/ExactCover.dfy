/** The cover against what a reader of the raw spans would answer: exact, and right at every instant. */
module ExactCover {
  import opened Prelude
  import opened Intervals
  import opened IslandRuns

  // --- a contiguous cover ------------------------------------------------------------------

  /** Adjacent pieces share a boundary, from `from` to `to`. */
  ghost predicate Contiguous(pieces: seq<Interval>, from: Instant, to: Instant) {
    && (pieces == [] ==> from == to)
    && (pieces != [] ==> pieces[0].startsAt == from && pieces[|pieces| - 1].endsAt == to)
    && (forall k :: 0 <= k < |pieces| ==> pieces[k].startsAt <= pieces[k].endsAt)
    && (forall k :: 0 <= k < |pieces| - 1 ==> pieces[k].endsAt == pieces[k + 1].startsAt)
  }

  ghost predicate GapsBounded(pieces: seq<Interval>) {
    forall k :: 0 <= k < |pieces| ==> 0 <= pieces[k].longestGap <= pieces[k].Duration()
  }

  lemma {:induction false} Join(left: seq<Interval>, right: seq<Interval>, from: Instant, mid: Instant, to: Instant)
    requires Contiguous(left, from, mid) && Contiguous(right, mid, to)
    ensures Contiguous(left + right, from, to)
  {
  }

  lemma {:induction false} ContiguousBounds(pieces: seq<Interval>, from: Instant, to: Instant)
    requires Contiguous(pieces, from, to)
    ensures from <= to
    ensures forall k :: 0 <= k < |pieces| ==> from <= pieces[k].startsAt && pieces[k].endsAt <= to
    ensures pieces != [] ==> Contiguous(pieces[1..], pieces[0].endsAt, to)
  {
    if pieces != [] {
      ContiguousBounds(pieces[1..], pieces[0].endsAt, to);
      forall k | 0 <= k < |pieces|
        ensures from <= pieces[k].startsAt && pieces[k].endsAt <= to
      {
        if k > 0 {
          assert pieces[k] == pieces[1..][k - 1];
        }
      }
    }
  }

  function Durations(pieces: seq<Interval>): int {
    if pieces == [] then 0 else pieces[0].Duration() + Durations(pieces[1..])
  }

  lemma {:induction false} DurationsTelescope(pieces: seq<Interval>, from: Instant, to: Instant)
    requires Contiguous(pieces, from, to)
    ensures Durations(pieces) == to - from
  {
    if pieces != [] {
      ContiguousBounds(pieces, from, to);
      DurationsTelescope(pieces[1..], pieces[0].endsAt, to);
    }
  }

  /** A contiguous cover answers every instant once. */
  lemma {:induction false} AnswersOnce(pieces: seq<Interval>, from: Instant, to: Instant, t: Instant)
    returns (k: nat)
    requires Contiguous(pieces, from, to) && from <= t < to
    ensures k < |pieces| && pieces[k].startsAt <= t < pieces[k].endsAt
    ensures forall j :: 0 <= j < |pieces| && pieces[j].startsAt <= t < pieces[j].endsAt ==> j == k
  {
    ContiguousBounds(pieces, from, to);
    if t < pieces[0].endsAt {
      k := 0;
      ContiguousBounds(pieces[1..], pieces[0].endsAt, to);
      assert forall j :: 0 < j < |pieces| ==> pieces[j] == pieces[1..][j - 1];
    } else {
      k := AnswersOnce(pieces[1..], pieces[0].endsAt, to, t);
      assert forall j :: 0 < j < |pieces| ==> pieces[j] == pieces[1..][j - 1];
      k := k + 1;
    }
  }

  // --- the tail ----------------------------------------------------------------------------

  lemma {:induction false} Prepend(piece: Interval, rest: seq<Interval>, to: Instant)
    requires piece.startsAt <= piece.endsAt && Contiguous(rest, piece.endsAt, to)
    ensures Contiguous([piece] + rest, piece.startsAt, to)
    ensures 0 <= piece.longestGap <= piece.Duration() && GapsBounded(rest) ==> GapsBounded([piece] + rest)
  {
  }

  lemma {:induction false} TailIsContiguous(cursor: Instant, end: Instant, gone: seq<Window>)
    requires cursor <= end
    ensures Contiguous(TailPieces(cursor, end, gone), cursor, end)
    ensures GapsBounded(TailPieces(cursor, end, gone))
    decreases |gone|
  {
    if gone != [] {
      var opens, closes := Max(gone[0].departedAt, cursor), Closes(gone[0], end);
      if closes <= opens {
        TailIsContiguous(cursor, end, gone[1..]);
      } else {
        var rest, departed := TailPieces(closes, end, gone[1..]), Gap(Departed, opens, closes);
        TailIsContiguous(closes, end, gone[1..]);
        Prepend(departed, rest, end);
        if cursor < opens {
          var quiet := Gap(NotObserved, cursor, opens);
          Prepend(quiet, [departed] + rest, end);
          assert [quiet] + [departed] + rest == [quiet] + ([departed] + rest);
        } else {
          assert [] + [departed] + rest == [departed] + rest;
        }
      }
    }
  }

  predicate Covers(window: Window, t: Instant) {
    window.departedAt <= t && (window.endedAt.Some? ==> t < window.endedAt.value)
  }

  predicate Gone(gone: seq<Window>, t: Instant) {
    exists k :: 0 <= k < |gone| && Covers(gone[k], t)
  }

  /** Every piece over `t` gives this answer. */
  ghost predicate AnswersAt(pieces: seq<Interval>, t: Instant, answer: Answer) {
    forall k :: 0 <= k < |pieces| && pieces[k].startsAt <= t < pieces[k].endsAt ==>
      pieces[k].state == answer.state && pieces[k].digest == answer.digest
  }

  lemma {:induction false} GoneSplits(gone: seq<Window>, t: Instant)
    requires gone != []
    ensures Gone(gone, t) <==> Covers(gone[0], t) || Gone(gone[1..], t)
  {
    if Gone(gone[1..], t) {
      var k :| 0 <= k < |gone[1..]| && Covers(gone[1..][k], t);
      assert Covers(gone[k + 1], t);
    }
    if Gone(gone, t) && !Covers(gone[0], t) {
      var k :| 0 <= k < |gone| && Covers(gone[k], t);
      assert Covers(gone[1..][k - 1], t);
    }
  }

  /** What is answered past the last observation. */
  function Unseen(gone: seq<Window>, t: Instant): Answer {
    Answer(if Gone(gone, t) then Departed else NotObserved, None)
  }

  lemma {:induction false} NotYetGone(gone: seq<Window>, t: Instant)
    requires OldestFirst(gone) && gone != [] && t < gone[0].departedAt
    ensures !Gone(gone, t)
  {
  }

  /** One window that leaves something of itself in the tail, and the rest of the tail after it. */
  lemma {:induction false} PieceAnswers(
    cursor: Instant, opens: Instant, closes: Instant, rest: seq<Interval>, end: Instant, t: Instant, answer: Answer)
    requires cursor <= opens < closes && cursor <= t && Contiguous(rest, closes, end)
    requires t < opens ==> answer == Answer(NotObserved, None)
    requires opens <= t < closes ==> answer == Answer(Departed, None)
    requires closes <= t ==> AnswersAt(rest, t, answer)
    ensures AnswersAt((if cursor < opens then [Gap(NotObserved, cursor, opens)] else [])
                      + [Gap(Departed, opens, closes)] + rest, t, answer)
  {
    ContiguousBounds(rest, closes, end);
    var first := if cursor < opens then [Gap(NotObserved, cursor, opens)] else [];
    AnswersJoin(first, [Gap(Departed, opens, closes)], t, answer);
    AnswersJoin(first + [Gap(Departed, opens, closes)], rest, t, answer);
  }

  lemma {:induction false} AnswersJoin(left: seq<Interval>, right: seq<Interval>, t: Instant, answer: Answer)
    requires AnswersAt(left, t, answer) && AnswersAt(right, t, answer)
    ensures AnswersAt(left + right, t, answer)
  {
  }

  /** Past the last observation an instant is departed exactly when a departure covers it. */
  lemma {:induction false} TailAnswers(cursor: Instant, end: Instant, gone: seq<Window>, t: Instant)
    requires cursor <= t < end && OldestFirst(gone)
    ensures AnswersAt(TailPieces(cursor, end, gone), t, Unseen(gone, t))
    decreases |gone|
  {
    if gone != [] {
      GoneSplits(gone, t);
      var opens, closes, rest := Max(gone[0].departedAt, cursor), Closes(gone[0], end), gone[1..];
      if closes <= opens {
        TailAnswers(cursor, end, rest, t);
      } else {
        TailIsContiguous(closes, end, rest);
        if t < opens {
          NotYetGone(gone, t);
        } else if t >= closes {
          TailAnswers(closes, end, rest, t);
        }
        PieceAnswers(cursor, opens, closes, TailPieces(closes, end, rest), end, t, Unseen(gone, t));
      }
    }
  }

  // --- the islands -------------------------------------------------------------------------

  /** What a list of islands needs for the cover to be contiguous, in whatever order ties fell. */
  ghost predicate Coverable(islands: seq<Island>, asOf: Instant) {
    && islands != [] && Ordered(islands)
    && forall k :: 0 <= k < |islands| ==> islands[k].startsAt <= islands[k].lastObserved && islands[k].startsAt <= asOf
  }

  lemma {:induction false} HeadsAreContiguous(islands: seq<Island>, asOf: Instant)
    requires Coverable(islands, asOf)
    ensures Contiguous(Heads(islands, |islands|, asOf), islands[0].startsAt,
                       Min(islands[|islands| - 1].lastObserved, asOf))
  {
  }

  lemma {:induction false} SeenIsContiguous(islands: seq<Island>, gone: seq<Window>, asOf: Instant)
    requires Coverable(islands, asOf)
    ensures var seen := Min(islands[|islands| - 1].lastObserved, asOf);
            Contiguous(Heads(islands, |islands|, asOf) + TailPieces(seen, asOf, gone), islands[0].startsAt, asOf)
  {
    var seen := Min(islands[|islands| - 1].lastObserved, asOf);
    HeadsAreContiguous(islands, asOf);
    TailIsContiguous(seen, asOf, gone);
    Join(Heads(islands, |islands|, asOf), TailPieces(seen, asOf, gone), islands[0].startsAt, seen, asOf);
  }

  lemma {:induction false} UnclippedIsContiguous(
    islands: seq<Island>, gone: seq<Window>, windowFrom: Instant, asOf: Instant)
    requires Coverable(islands, asOf)
    ensures Contiguous(Unclipped(islands, gone, windowFrom, asOf), Min(windowFrom, islands[0].startsAt), asOf)
  {
    var from, seen := islands[0].startsAt, Min(islands[|islands| - 1].lastObserved, asOf);
    var heads, tail := Heads(islands, |islands|, asOf), TailPieces(seen, asOf, gone);
    SeenIsContiguous(islands, gone, asOf);
    if windowFrom < from {
      Prepend(Gap(NotObserved, windowFrom, from), heads + tail, asOf);
      assert [Gap(NotObserved, windowFrom, from)] + heads + tail == [Gap(NotObserved, windowFrom, from)] + (heads + tail);
    } else {
      assert [] + heads + tail == heads + tail;
    }
  }

  // --- the clip ----------------------------------------------------------------------------

  lemma {:induction false} ClipKeepsLater(pieces: seq<Interval>, from: Instant, to: Instant, windowFrom: Instant)
    requires Contiguous(pieces, from, to) && windowFrom < from
    ensures Clipped(pieces, windowFrom) == pieces
  {
    if pieces != [] {
      ContiguousBounds(pieces, from, to);
      ClipKeepsLater(pieces[1..], pieces[0].endsAt, to, windowFrom);
    }
  }

  lemma {:induction false} ClipOfStraddling(first: Interval, rest: seq<Interval>, to: Instant, windowFrom: Instant)
    requires Contiguous(rest, first.endsAt, to) && first.startsAt <= windowFrom < first.endsAt
    ensures Contiguous([Clip(first, windowFrom)] + Clipped(rest, windowFrom), windowFrom, to)
  {
    ClipKeepsLater(rest, first.endsAt, to, windowFrom);
    Prepend(Clip(first, windowFrom), rest, to);
  }

  lemma {:induction false} ClipIsContiguous(pieces: seq<Interval>, from: Instant, to: Instant, windowFrom: Instant)
    requires Contiguous(pieces, from, to) && from <= windowFrom <= to
    ensures Contiguous(Clipped(pieces, windowFrom), windowFrom, to)
  {
    if pieces != [] {
      ContiguousBounds(pieces, from, to);
      var first, rest := pieces[0], pieces[1..];
      if first.endsAt > windowFrom {
        ClipOfStraddling(first, rest, to, windowFrom);
      } else {
        ClipIsContiguous(rest, first.endsAt, to, windowFrom);
        if Printed(first, windowFrom) {
          Prepend(first, Clipped(rest, windowFrom), to);
        } else {
          assert Clipped(pieces, windowFrom) == [] + Clipped(rest, windowFrom);
        }
      }
    }
  }

  /** It is enough that what the window prints is bounded. */
  lemma {:induction false} ClipKeepsGaps(pieces: seq<Interval>, windowFrom: Instant)
    requires forall k :: 0 <= k < |pieces| && Printed(pieces[k], windowFrom) ==>
               0 <= pieces[k].longestGap <= pieces[k].Duration()
    ensures GapsBounded(Clipped(pieces, windowFrom))
  {
    if pieces != [] {
      assert forall k :: 0 <= k < |pieces[1..]| ==> pieces[1..][k] == pieces[k + 1];
      ClipKeepsGaps(pieces[1..], windowFrom);
    }
  }

  lemma {:induction false} ClipKeepsPiece(pieces: seq<Interval>, k: nat, windowFrom: Instant)
    requires k < |pieces| && windowFrom <= pieces[k].startsAt <= pieces[k].endsAt
    ensures pieces[k] in Clipped(pieces, windowFrom)
  {
    if k > 0 {
      ClipKeepsPiece(pieces[1..], k - 1, windowFrom);
    }
  }

  lemma {:induction false} ClipKeepsAnswers(pieces: seq<Interval>, windowFrom: Instant, t: Instant, answer: Answer)
    requires AnswersAt(pieces, t, answer) && windowFrom <= t
    ensures AnswersAt(Clipped(pieces, windowFrom), t, answer)
  {
    if pieces != [] {
      assert forall k :: 0 <= k < |pieces[1..]| ==> pieces[1..][k] == pieces[k + 1];
      ClipKeepsAnswers(pieces[1..], windowFrom, t, answer);
    }
  }

  // --- what the raw spans say --------------------------------------------------------------

  datatype Answer = Answer(state: State, digest: Option<Digest>)

  /** The digest of the last of the first `n` spans first observed at or before `t`. */
  function DigestAt(spans: seq<Span>, n: nat, t: Instant): Option<Digest>
    requires n <= |spans|
  {
    if n == 0 then None
    else if spans[n - 1].firstObserved <= t then spans[n - 1].digest
    else DigestAt(spans, n - 1, t)
  }

  /** The last observation of the stretch the first `n` spans end in. */
  function LastSeen(spans: seq<Span>, n: nat): Instant
    requires 0 < n <= |spans|
  {
    if Opens(spans, n - 1) then spans[n - 1].lastObserved
    else Max(LastSeen(spans, n - 1), spans[n - 1].lastObserved)
  }

  /** One instant answered from the spans and departures alone, with no interval in sight. */
  function Naive(spans: seq<Span>, gone: seq<Window>, asOf: Instant, t: Instant): Answer
    requires spans != []
  {
    if t < spans[0].firstObserved then Answer(NotObserved, None)
    else if t < Min(LastSeen(spans, |spans|), asOf) then Answer(Observed, DigestAt(spans, |spans|, t))
    else Unseen(gone, t)
  }

  lemma {:induction false} LastRunSeen(spans: seq<Span>, n: nat)
    requires 0 < n <= |spans|
    ensures Runs(spans, n)[|Runs(spans, n)| - 1].lastObserved == LastSeen(spans, n)
  {
    if n > 1 {
      LastRunSeen(spans, n - 1);
    }
  }

  /** Between its own start and the next run's, a run's digest is the last one witnessed. */
  lemma {:induction false} RunAnswers(spans: seq<Span>, n: nat, k: nat, t: Instant)
    requires n <= |spans| && ValidSpans(spans) && k < |Runs(spans, n)|
    requires Runs(spans, n)[k].startsAt <= t
    requires k + 1 < |Runs(spans, n)| ==> t < Runs(spans, n)[k + 1].startsAt
    ensures Runs(spans, n)[k].digest == DigestAt(spans, n, t)
  {
    RunsAreOrdered(spans, n);
    if n > 1 {
      RunsAreOrdered(spans, n - 1);
      if t < spans[n - 1].firstObserved {
        RunAnswers(spans, n - 1, k, t);
      }
    }
  }

  /** An inner gap fits between its run's start and whatever the run's stretch ends at. */
  lemma {:induction false} RunGapsFit(spans: seq<Span>, n: nat)
    requires 0 < n <= |spans| && ValidSpans(spans)
    ensures var runs := Runs(spans, n);
            forall k :: 0 <= k < |runs| && runs[k].innerGap.Some? ==>
              && runs[k].innerGap.value <= spans[n - 1].firstObserved - runs[k].startsAt
              && runs[k].innerGap.value
                 <= (if k + 1 < |runs| then runs[k + 1].startsAt else runs[k].lastObserved) - runs[k].startsAt
  {
    if n > 1 {
      RunsAreOrdered(spans, n - 1);
      RunGapsFit(spans, n - 1);
    }
  }

  // --- the theorems ------------------------------------------------------------------------

  /** What the query reads: nothing first observed after `as_of`. */
  ghost predicate Readable(spans: seq<Span>, asOf: Instant) {
    spans != [] && ValidSpans(spans) && forall i :: 0 <= i < |spans| ==> spans[i].firstObserved <= asOf
  }

  lemma {:induction false} RowsAreCoverable(spans: seq<Span>, rows: seq<Island>, asOf: Instant)
    requires Readable(spans, asOf) && QueryResult(spans, rows)
    ensures Coverable(rows, asOf)
    ensures rows[0].startsAt == spans[0].firstObserved
  {
    var islands := Islands(spans);
    IslandsAreRuns(spans);
    RunsAreOrdered(spans, |spans|);
    assert islands[0] in multiset(rows);
    forall k | 0 <= k < |rows|
      ensures rows[k] in islands
    {
      assert rows[k] in multiset(rows);
      assert rows[k] in multiset(islands);
    }
  }

  /** Whatever order the query returns tying groups in, the intervals cover the window exactly:
      they start at `window_from`, end at `as_of`, share every boundary, and lose no time. */
  lemma {:induction false} CoverIsExact(
    spans: seq<Span>, rows: seq<Island>, gone: seq<Window>, windowFrom: Instant, asOf: Instant)
    requires Readable(spans, asOf) && QueryResult(spans, rows) && windowFrom <= asOf
    ensures rows != []
    ensures Contiguous(CoverOf(rows, gone, windowFrom, asOf), windowFrom, asOf)
    ensures Durations(CoverOf(rows, gone, windowFrom, asOf)) == asOf - windowFrom
  {
    RowsAreCoverable(spans, rows, asOf);
    UnclippedIsContiguous(rows, gone, windowFrom, asOf);
    ClipIsContiguous(Unclipped(rows, gone, windowFrom, asOf), Min(windowFrom, rows[0].startsAt), asOf, windowFrom);
    DurationsTelescope(CoverOf(rows, gone, windowFrom, asOf), windowFrom, asOf);
  }

  // --- what a cover answers ------------------------------------------------------------------

  /** Exactly one piece is over `t`, and this is its answer. */
  ghost predicate Reads(pieces: seq<Interval>, t: Instant, answer: Answer) {
    exists k :: 0 <= k < |pieces| && IsOver(pieces, k, t) && Answer(pieces[k].state, pieces[k].digest) == answer
                && forall j :: 0 <= j < |pieces| && IsOver(pieces, j, t) ==> j == k
  }

  predicate IsOver(pieces: seq<Interval>, k: nat, t: Instant)
    requires k < |pieces|
  {
    pieces[k].startsAt <= t < pieces[k].endsAt
  }

  /** The digest of the last of the first `n` rows to start at or before `t`. */
  function RowDigest(rows: seq<Island>, n: nat, t: Instant): Option<Digest>
    requires n <= |rows|
  {
    if n == 0 then None
    else if rows[n - 1].startsAt <= t then rows[n - 1].digest
    else RowDigest(rows, n - 1, t)
  }

  /** One instant answered from the query's rows, as they came back. */
  function Shown(rows: seq<Island>, gone: seq<Window>, asOf: Instant, t: Instant): Answer
    requires rows != []
  {
    if t < rows[0].startsAt then Answer(NotObserved, None)
    else if t < Min(rows[|rows| - 1].lastObserved, asOf) then Answer(Observed, RowDigest(rows, |rows|, t))
    else Unseen(gone, t)
  }

  /** Row `k` is the last to have started by `t`. */
  predicate LastBy(rows: seq<Island>, k: nat, t: Instant)
    requires k < |rows|
  {
    rows[k].startsAt <= t && (k + 1 < |rows| ==> t < rows[k + 1].startsAt)
  }

  lemma {:induction false} RowDigestIs(rows: seq<Island>, n: nat, k: nat, t: Instant)
    requires k < n <= |rows| && Ordered(rows) && LastBy(rows, k, t)
    ensures RowDigest(rows, n, t) == rows[k].digest
  {
    if k < n - 1 {
      RowDigestIs(rows, n - 1, k, t);
    }
  }

  lemma {:induction false} SomeRowIsLast(rows: seq<Island>, n: nat, t: Instant) returns (k: nat)
    requires 0 < n <= |rows| && rows[0].startsAt <= t && (n < |rows| ==> t < rows[n].startsAt)
    ensures k < |rows| && LastBy(rows, k, t)
  {
    if rows[n - 1].startsAt <= t {
      k := n - 1;
    } else {
      k := SomeRowIsLast(rows, n - 1, t);
    }
  }

  lemma {:induction false} HeadsShow(rows: seq<Island>, gone: seq<Window>, asOf: Instant, t: Instant)
    requires Coverable(rows, asOf)
    ensures AnswersAt(Heads(rows, |rows|, asOf), t, Shown(rows, gone, asOf, t))
  {
    var heads := Heads(rows, |rows|, asOf);
    HeadsAreContiguous(rows, asOf);
    ContiguousBounds(heads, rows[0].startsAt, Min(rows[|rows| - 1].lastObserved, asOf));
    forall k | 0 <= k < |heads| && heads[k].startsAt <= t < heads[k].endsAt
      ensures heads[k].state == Shown(rows, gone, asOf, t).state && heads[k].digest == Shown(rows, gone, asOf, t).digest
    {
      assert heads[k] == Held(rows, k, asOf);
      RowDigestIs(rows, |rows|, k, t);
    }
  }

  lemma {:induction false} UnclippedShows(
    rows: seq<Island>, gone: seq<Window>, windowFrom: Instant, asOf: Instant, t: Instant)
    requires Coverable(rows, asOf) && OldestFirst(gone) && t < asOf
    ensures AnswersAt(Unclipped(rows, gone, windowFrom, asOf), t, Shown(rows, gone, asOf, t))
  {
    var answer, seen := Shown(rows, gone, asOf, t), Min(rows[|rows| - 1].lastObserved, asOf);
    var heads, tail := Heads(rows, |rows|, asOf), TailPieces(seen, asOf, gone);
    var opening := if windowFrom < rows[0].startsAt then [Gap(NotObserved, windowFrom, rows[0].startsAt)] else [];
    HeadsShow(rows, gone, asOf, t);
    assert AnswersAt(opening, t, answer);
    assert AnswersAt(tail, t, answer) by {
      TailIsContiguous(seen, asOf, gone);
      ContiguousBounds(tail, seen, asOf);
      if seen <= t {
        assert rows[0].startsAt <= rows[|rows| - 1].startsAt;
        TailAnswers(seen, asOf, gone, t);
      }
    }
    AnswersJoin(opening, heads, t, answer);
    AnswersJoin(opening + heads, tail, t, answer);
  }

  lemma {:induction false} ContiguousReads(
    pieces: seq<Interval>, from: Instant, to: Instant, t: Instant, answer: Answer)
    requires Contiguous(pieces, from, to) && from <= t < to && AnswersAt(pieces, t, answer)
    ensures Reads(pieces, t, answer)
  {
    var k := AnswersOnce(pieces, from, to, t);
    assert IsOver(pieces, k, t);
  }

  /** At every instant of the window one interval answers, with what the rows show there. */
  lemma {:induction false} CoverShows(
    rows: seq<Island>, gone: seq<Window>, windowFrom: Instant, asOf: Instant, t: Instant)
    requires Coverable(rows, asOf) && OldestFirst(gone) && windowFrom <= t < asOf
    ensures Reads(CoverOf(rows, gone, windowFrom, asOf), t, Shown(rows, gone, asOf, t))
  {
    var pieces := Unclipped(rows, gone, windowFrom, asOf);
    UnclippedIsContiguous(rows, gone, windowFrom, asOf);
    ClipIsContiguous(pieces, Min(windowFrom, rows[0].startsAt), asOf, windowFrom);
    UnclippedShows(rows, gone, windowFrom, asOf, t);
    ClipKeepsAnswers(pieces, windowFrom, t, Shown(rows, gone, asOf, t));
    ContiguousReads(Clipped(pieces, windowFrom), windowFrom, asOf, t, Shown(rows, gone, asOf, t));
  }

  /** In the spans' own order the rows show what the spans say. */
  lemma {:induction false} IslandsShowNaive(spans: seq<Span>, gone: seq<Window>, asOf: Instant, t: Instant)
    requires Readable(spans, asOf)
    ensures Islands(spans) != []
    ensures Shown(Islands(spans), gone, asOf, t) == Naive(spans, gone, asOf, t)
  {
    var islands := Islands(spans);
    IslandsAreRuns(spans);
    RunsAreOrdered(spans, |spans|);
    LastRunSeen(spans, |spans|);
    if islands[0].startsAt <= t {
      var k := SomeRowIsLast(islands, |islands|, t);
      RowDigestIs(islands, |islands|, k, t);
      RunAnswers(spans, |spans|, k, t);
    }
  }
}
