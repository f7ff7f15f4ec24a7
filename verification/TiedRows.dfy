/** Two stretches may open at one instant, and the query then returns them either way round: what
    every order of the rows keeps, and exactly when none of them misreads the spans. */
module TiedRows {
  import opened Prelude
  import opened Intervals
  import opened IslandRuns
  import opened ExactCover

  // --- the orders the query permits ----------------------------------------------------------

  lemma {:induction false} PlaceOf(islands: seq<Island>, rows: seq<Island>, k: nat) returns (i: nat)
    requires multiset(rows) == multiset(islands) && k < |rows|
    ensures i < |islands| && islands[i] == rows[k]
  {
    assert rows[k] in multiset(rows);
    i :| 0 <= i < |islands| && islands[i] == rows[k];
  }

  /** Taking out one that starts with the first moves no start. */
  lemma {:induction false} DropKeepsStarts(islands: seq<Island>, i: nat)
    requires i < |islands| && Ordered(islands) && islands[i].startsAt == islands[0].startsAt
    ensures Ordered(DropAt(islands, i))
    ensures forall k :: 0 <= k < |islands| - 1 ==> DropAt(islands, i)[k].startsAt == islands[k + 1].startsAt
  {
    forall k | 0 <= k < |islands| - 1
      ensures DropAt(islands, i)[k].startsAt == islands[k + 1].startsAt
    {
      if k < i {
        assert islands[0].startsAt <= islands[k].startsAt <= islands[k + 1].startsAt <= islands[i].startsAt;
      }
    }
  }

  lemma {:induction false} FirstsAgree(rows: seq<Island>, islands: seq<Island>) returns (i: nat)
    requires multiset(rows) == multiset(islands) && Ordered(rows) && Ordered(islands)
    requires rows != [] && islands != []
    ensures i < |islands| && islands[i] == rows[0] && rows[0].startsAt == islands[0].startsAt
    ensures multiset(DropAt(rows, 0)) == multiset(DropAt(islands, i))
  {
    i := PlaceOf(islands, rows, 0);
    var first := PlaceOf(rows, islands, 0);
    assert rows[0].startsAt <= rows[first].startsAt && islands[0].startsAt <= islands[i].startsAt;
    assert multiset(DropAt(rows, 0)) == multiset(DropAt(islands, i)) by {
      DropsOne(rows, 0);
      DropsOne(islands, i);
    }
  }

  /** Two ordered lists of the same islands start alike, place by place. */
  lemma {:induction false} StartsAgree(rows: seq<Island>, islands: seq<Island>)
    requires multiset(rows) == multiset(islands) && Ordered(rows) && Ordered(islands)
    ensures |rows| == |islands|
    ensures forall k :: 0 <= k < |rows| ==> rows[k].startsAt == islands[k].startsAt
  {
    assert |multiset(rows)| == |multiset(islands)|;
    if rows != [] {
      var i := FirstsAgree(rows, islands);
      var others, rest := DropAt(rows, 0), DropAt(islands, i);
      DropKeepsStarts(rows, 0);
      DropKeepsStarts(islands, i);
      StartsAgree(others, rest);
      forall k | 0 < k < |rows|
        ensures rows[k].startsAt == islands[k].startsAt
      {
        assert others[k - 1].startsAt == rest[k - 1].startsAt;
      }
    }
  }

  function Exchanged(islands: seq<Island>, i: nat, j: nat): (rows: seq<Island>)
    requires i < |islands| && j < |islands|
    ensures |rows| == |islands|
  {
    islands[i := islands[j]][j := islands[i]]
  }

  /** Rows that tie may be exchanged. */
  lemma {:induction false} ExchangedQualifies(spans: seq<Span>, i: nat, j: nat)
    requires ValidSpans(spans) && spans != []
    requires i < |Islands(spans)| && j < |Islands(spans)|
    requires Islands(spans)[i].startsAt == Islands(spans)[j].startsAt
    ensures QueryResult(spans, Exchanged(Islands(spans), i, j))
  {
    var islands := Islands(spans);
    IslandsAreRuns(spans);
    RunsAreOrdered(spans, |spans|);
    var rows := Exchanged(islands, i, j);
    assert forall k :: 0 <= k < |rows| ==> rows[k].startsAt == islands[k].startsAt;
  }

  /** The islands and any answer of the query, side by side. */
  lemma {:induction false} RowsStartAlike(spans: seq<Span>, rows: seq<Island>, asOf: Instant)
    requires Readable(spans, asOf) && QueryResult(spans, rows)
    ensures Coverable(Islands(spans), asOf) && Coverable(rows, asOf)
    ensures |rows| == |Islands(spans)|
    ensures forall k :: 0 <= k < |rows| ==> rows[k].startsAt == Islands(spans)[k].startsAt
  {
    IslandsAreRuns(spans);
    RunsAreOrdered(spans, |spans|);
    RowsAreCoverable(spans, rows, asOf);
    RowsAreCoverable(spans, Islands(spans), asOf);
    StartsAgree(rows, Islands(spans));
  }

  // --- right at every instant ----------------------------------------------------------------

  /** The latest observation of row `j` and the rows before it that start with it. */
  function TiedSeen(rows: seq<Island>, j: nat): Instant
    requires j < |rows|
  {
    if j > 0 && rows[j - 1].startsAt == rows[j].startsAt then Max(TiedSeen(rows, j - 1), rows[j].lastObserved)
    else rows[j].lastObserved
  }

  /** Until when the rows starting with row `j` have something to show: the next start, or for the
      last ones the latest of their own last observations. */
  function ShownUntil(rows: seq<Island>, j: nat, asOf: Instant): Instant
    requires j < |rows|
  {
    if j + 1 < |rows| then rows[j + 1].startsAt else Min(TiedSeen(rows, j), asOf)
  }

  predicate ShowsTie(rows: seq<Island>, j: nat, windowFrom: Instant, asOf: Instant)
    requires j < |rows|
  {
    j > 0 && rows[j - 1].startsAt == rows[j].startsAt
    && Max(rows[j].startsAt, windowFrom) < ShownUntil(rows, j, asOf)
  }

  /** Some instant at which two stretches open has window time to show. */
  predicate TieShows(rows: seq<Island>, windowFrom: Instant, asOf: Instant) {
    exists j :: 0 <= j < |rows| && ShowsTie(rows, j, windowFrom, asOf)
  }

  lemma {:induction false} TiedSeenIsLatest(rows: seq<Island>, i: nat, j: nat)
    requires i <= j < |rows| && Ordered(rows) && rows[i].startsAt == rows[j].startsAt
    ensures rows[i].lastObserved <= TiedSeen(rows, j)
  {
    if i < j {
      assert rows[i].startsAt <= rows[j - 1].startsAt <= rows[j].startsAt;
      TiedSeenIsLatest(rows, i, j - 1);
    }
  }

  lemma {:induction false} TiedSeenIsSeen(rows: seq<Island>, j: nat) returns (i: nat)
    requires j < |rows|
    ensures i <= j && rows[i].startsAt == rows[j].startsAt && rows[i].lastObserved == TiedSeen(rows, j)
  {
    i := j;
    if TiedSeen(rows, j) != rows[j].lastObserved {
      i := TiedSeenIsSeen(rows, j - 1);
    }
  }

  /** Where no tie shows, another row in the last place by `t` leaves nothing after it to see. */
  lemma {:induction false} QuietPlace(
    islands: seq<Island>, rows: seq<Island>, k: nat, windowFrom: Instant, asOf: Instant, t: Instant)
    requires multiset(rows) == multiset(islands) && Ordered(islands) && k < |rows| == |islands|
    requires rows[k].startsAt == islands[k].startsAt && LastBy(islands, k, t)
    requires !TieShows(islands, windowFrom, asOf) && windowFrom <= t < asOf
    ensures rows[k] == islands[k]
            || (k + 1 == |islands| && rows[k].lastObserved <= t && islands[k].lastObserved <= t)
  {
    if rows[k] != islands[k] {
      var i := PlaceOf(islands, rows, k);
      assert i < k;
      assert islands[i].startsAt <= islands[k - 1].startsAt <= islands[k].startsAt;
      assert !ShowsTie(islands, k, windowFrom, asOf);
      TiedSeenIsLatest(islands, i, k);
      TiedSeenIsLatest(islands, k, k);
    }
  }

  lemma {:induction false} QuietTiesShowAlike(
    spans: seq<Span>, rows: seq<Island>, gone: seq<Window>, windowFrom: Instant, asOf: Instant, t: Instant)
    requires Readable(spans, asOf) && QueryResult(spans, rows) && windowFrom <= t < asOf
    requires !TieShows(Islands(spans), windowFrom, asOf)
    ensures rows != [] && Islands(spans) != []
    ensures Shown(rows, gone, asOf, t) == Shown(Islands(spans), gone, asOf, t)
  {
    var islands := Islands(spans);
    RowsStartAlike(spans, rows, asOf);
    if islands[0].startsAt <= t {
      var k := SomeRowIsLast(islands, |islands|, t);
      RowDigestIs(islands, |islands|, k, t);
      RowDigestIs(rows, |rows|, k, t);
      QuietPlace(islands, rows, k, windowFrom, asOf, t);
      if k + 1 < |islands| {
        assert islands[k + 1].startsAt <= islands[|islands| - 1].startsAt;
      }
    }
  }

  /** Exchanging row `j`, the last to have started by `t`, with one that ties with it. */
  lemma {:induction false} ExchangeShows(
    spans: seq<Span>, i: nat, j: nat, gone: seq<Window>, asOf: Instant, t: Instant)
    requires Readable(spans, asOf) && i < j < |Islands(spans)| && LastBy(Islands(spans), j, t) && t < asOf
    requires Islands(spans)[i].startsAt == Islands(spans)[j].startsAt
    requires j + 1 == |Islands(spans)| ==>
               t < Islands(spans)[j].lastObserved || t < Islands(spans)[i].lastObserved
    requires Islands(spans)[i].digest != Islands(spans)[j].digest
             || (j + 1 == |Islands(spans)| && Islands(spans)[j].lastObserved <= t)
    ensures var rows := Exchanged(Islands(spans), i, j);
            QueryResult(spans, rows) && Shown(rows, gone, asOf, t) != Shown(Islands(spans), gone, asOf, t)
  {
    var islands, rows := Islands(spans), Exchanged(Islands(spans), i, j);
    ExchangedQualifies(spans, i, j);
    RowsStartAlike(spans, rows, asOf);
    RowDigestIs(islands, |islands|, j, t);
    RowDigestIs(rows, |rows|, j, t);
    assert islands[0].startsAt <= islands[j].startsAt;
    if j + 1 < |islands| {
      assert islands[j + 1].startsAt <= islands[|islands| - 1].startsAt;
    }
  }

  /** One that ties with row `j` and would show something else at `t`. */
  lemma {:induction false} TiedPartner(islands: seq<Island>, j: nat, asOf: Instant, t: Instant) returns (i: nat)
    requires 0 < j < |islands| && islands[j - 1].startsAt == islands[j].startsAt
    requires islands[j - 1].digest != islands[j].digest && t < ShownUntil(islands, j, asOf)
    ensures i < j && islands[i].startsAt == islands[j].startsAt
    ensures j + 1 == |islands| ==> t < islands[j].lastObserved || t < islands[i].lastObserved
    ensures islands[i].digest != islands[j].digest || (j + 1 == |islands| && islands[j].lastObserved <= t)
  {
    i := j - 1;
    if j + 1 == |islands| && islands[j].lastObserved <= t {
      i := TiedSeenIsSeen(islands, j);
    }
  }

  lemma {:induction false} ShowingTieMisreads(spans: seq<Span>, gone: seq<Window>, windowFrom: Instant, asOf: Instant)
    returns (rows: seq<Island>, t: Instant)
    requires Readable(spans, asOf) && windowFrom <= asOf && TieShows(Islands(spans), windowFrom, asOf)
    ensures QueryResult(spans, rows) && windowFrom <= t < asOf && rows != [] && Islands(spans) != []
    ensures Shown(rows, gone, asOf, t) != Shown(Islands(spans), gone, asOf, t)
  {
    var islands := Islands(spans);
    var j: nat :| j < |islands| && ShowsTie(islands, j, windowFrom, asOf);
    IslandsAreRuns(spans);
    RunsAreOrdered(spans, |spans|);
    t := Max(islands[j].startsAt, windowFrom);
    assert t < asOf by {
      RowsAreCoverable(spans, islands, asOf);
    }
    var i := TiedPartner(islands, j, asOf, t);
    ExchangeShows(spans, i, j, gone, asOf, t);
    rows := Exchanged(islands, i, j);
  }

  /** The cover of these rows answers `t` as the raw spans and departures do. */
  ghost predicate ReadsNaively(
    spans: seq<Span>, rows: seq<Island>, gone: seq<Window>, windowFrom: Instant, asOf: Instant, t: Instant)
    requires spans != []
  {
    rows != [] && Reads(CoverOf(rows, gone, windowFrom, asOf), t, Naive(spans, gone, asOf, t))
  }

  lemma {:induction false} ReadsNaivelyExactly(
    spans: seq<Span>, rows: seq<Island>, gone: seq<Window>, windowFrom: Instant, asOf: Instant, t: Instant)
    requires Readable(spans, asOf) && QueryResult(spans, rows) && OldestFirst(gone) && windowFrom <= t < asOf
    ensures rows != [] && Islands(spans) != []
    ensures ReadsNaively(spans, rows, gone, windowFrom, asOf, t)
            <==> Shown(rows, gone, asOf, t) == Shown(Islands(spans), gone, asOf, t)
  {
    RowsStartAlike(spans, rows, asOf);
    CoverShows(rows, gone, windowFrom, asOf, t);
    IslandsShowNaive(spans, gone, asOf, t);
  }

  /** In the spans' own order the cover answers every instant as the raw spans and departures do,
      by one interval; in every order the query may return, it does so exactly when no instant at
      which two stretches open has window time to show. */
  lemma {:induction false} CoverIsPointwise(spans: seq<Span>, gone: seq<Window>, windowFrom: Instant, asOf: Instant)
    requires Readable(spans, asOf) && OldestFirst(gone) && windowFrom <= asOf
    ensures forall t :: windowFrom <= t < asOf ==> ReadsNaively(spans, Islands(spans), gone, windowFrom, asOf, t)
    ensures (forall rows, t :: QueryResult(spans, rows) && windowFrom <= t < asOf ==>
               ReadsNaively(spans, rows, gone, windowFrom, asOf, t))
            <==> !TieShows(Islands(spans), windowFrom, asOf)
  {
    var islands := Islands(spans);
    IslandsAreRuns(spans);
    RunsAreOrdered(spans, |spans|);
    forall t | windowFrom <= t < asOf
      ensures ReadsNaively(spans, islands, gone, windowFrom, asOf, t)
    {
      ReadsNaivelyExactly(spans, islands, gone, windowFrom, asOf, t);
    }
    if TieShows(islands, windowFrom, asOf) {
      var rows, t := ShowingTieMisreads(spans, gone, windowFrom, asOf);
      ReadsNaivelyExactly(spans, rows, gone, windowFrom, asOf, t);
    } else {
      forall rows, t | QueryResult(spans, rows) && windowFrom <= t < asOf
        ensures ReadsNaively(spans, rows, gone, windowFrom, asOf, t)
      {
        QuietTiesShowAlike(spans, rows, gone, windowFrom, asOf, t);
        ReadsNaivelyExactly(spans, rows, gone, windowFrom, asOf, t);
      }
    }
  }

  // --- no gap beyond its interval ------------------------------------------------------------

  predicate HasGap(island: Island) {
    island.innerGap.Some? && island.innerGap.value > 0
  }

  predicate GapTies(islands: seq<Island>, i: nat, j: nat, windowFrom: Instant)
    requires i < |islands| && j < |islands|
  {
    i != j && islands[i].startsAt == islands[j].startsAt && windowFrom <= islands[i].startsAt && HasGap(islands[i])
  }

  /** Some stretch with a hole in it opens inside the window, at the same instant as another. */
  predicate TiedGap(islands: seq<Island>, windowFrom: Instant) {
    exists i, j :: 0 <= i < |islands| && 0 <= j < |islands| && GapTies(islands, i, j, windowFrom)
  }

  lemma {:induction false} IslandGapFits(spans: seq<Span>, asOf: Instant, i: nat)
    requires Readable(spans, asOf) && i < |Islands(spans)| && HasGap(Islands(spans)[i])
    ensures var islands := Islands(spans);
            && islands[i].innerGap.value <= asOf - islands[i].startsAt
            && islands[i].innerGap.value
               <= (if i + 1 < |islands| then islands[i + 1].startsAt else islands[i].lastObserved) - islands[i].startsAt
  {
    IslandsAreRuns(spans);
    RunGapsFit(spans, |spans|);
  }

  /** A hole is inside what the row's interval holds, unless a tie leaves that interval no length. */
  lemma {:induction false} HeldFits(spans: seq<Span>, rows: seq<Island>, asOf: Instant, k: nat)
    requires Readable(spans, asOf) && QueryResult(spans, rows) && k < |rows| && HasGap(rows[k])
    ensures rows[k].innerGap.value <= IslandEnd(rows, k, asOf) - rows[k].startsAt
            || (k + 1 < |rows| && rows[k + 1].startsAt == rows[k].startsAt)
  {
    var islands := Islands(spans);
    RowsStartAlike(spans, rows, asOf);
    var i := PlaceOf(islands, rows, k);
    IslandGapFits(spans, asOf, i);
    if i < |islands| - 1 && k < |rows| - 1 {
      StartsBefore(islands, i, k);
    }
  }

  lemma {:induction false} StartsBefore(islands: seq<Island>, i: nat, k: nat)
    requires Ordered(islands) && i + 1 < |islands| && k + 1 < |islands| && islands[i].startsAt == islands[k].startsAt
    ensures islands[k].startsAt == islands[k + 1].startsAt || islands[i + 1].startsAt <= islands[k + 1].startsAt
  {
  }

  lemma {:induction false} GapIsTied(islands: seq<Island>, i: nat, k: nat, windowFrom: Instant)
    requires i < |islands| && k + 1 < |islands| && HasGap(islands[i]) && windowFrom <= islands[i].startsAt
    requires islands[i].startsAt == islands[k].startsAt == islands[k + 1].startsAt
    ensures TiedGap(islands, windowFrom)
  {
    assert GapTies(islands, i, if i == k then k + 1 else k, windowFrom);
  }

  /** In any order a printed head is bounded where no gap is tied; in the spans' own order always. */
  lemma {:induction false} PrintedHeadIsBounded(
    spans: seq<Span>, rows: seq<Island>, windowFrom: Instant, asOf: Instant, k: nat)
    requires Readable(spans, asOf) && QueryResult(spans, rows) && k < |rows|
    requires !TiedGap(Islands(spans), windowFrom) || rows == Islands(spans)
    requires Printed(Held(rows, k, asOf), windowFrom)
    ensures 0 <= Held(rows, k, asOf).longestGap <= Held(rows, k, asOf).Duration()
  {
    RowsStartAlike(spans, rows, asOf);
    if HasGap(rows[k]) {
      if rows == Islands(spans) {
        IslandGapFits(spans, asOf, k);
      } else {
        HeldFits(spans, rows, asOf, k);
        var i := PlaceOf(Islands(spans), rows, k);
        if k + 1 < |rows| && rows[k + 1].startsAt == rows[k].startsAt {
          GapIsTied(Islands(spans), i, k, windowFrom);
        }
      }
    }
  }

  lemma {:induction false} OrderKeepsGaps(
    spans: seq<Span>, rows: seq<Island>, gone: seq<Window>, windowFrom: Instant, asOf: Instant)
    requires Readable(spans, asOf) && QueryResult(spans, rows)
    requires !TiedGap(Islands(spans), windowFrom) || rows == Islands(spans)
    ensures rows != []
    ensures GapsBounded(CoverOf(rows, gone, windowFrom, asOf))
  {
    RowsAreCoverable(spans, rows, asOf);
    var seen := Min(rows[|rows| - 1].lastObserved, asOf);
    var heads, tail := Heads(rows, |rows|, asOf), TailPieces(seen, asOf, gone);
    TailIsContiguous(seen, asOf, gone);
    forall k | 0 <= k < |heads| && Printed(heads[k], windowFrom)
      ensures 0 <= heads[k].longestGap <= heads[k].Duration()
    {
      assert heads[k] == Held(rows, k, asOf);
      PrintedHeadIsBounded(spans, rows, windowFrom, asOf, k);
    }
    ClipKeepsGaps(Unclipped(rows, gone, windowFrom, asOf), windowFrom);
  }

  /** A stretch with a hole, put before one that opens with it, is printed with no length. */
  lemma {:induction false} EmptyHeadHasGap(
    rows: seq<Island>, gone: seq<Window>, windowFrom: Instant, asOf: Instant, k: nat)
    requires Coverable(rows, asOf) && k + 1 < |rows| && HasGap(rows[k])
    requires windowFrom <= rows[k].startsAt == rows[k + 1].startsAt
    ensures Held(rows, k, asOf) in CoverOf(rows, gone, windowFrom, asOf)
    ensures Held(rows, k, asOf).Duration() == 0 < Held(rows, k, asOf).longestGap
    ensures !GapsBounded(CoverOf(rows, gone, windowFrom, asOf))
  {
    var pieces := Unclipped(rows, gone, windowFrom, asOf);
    var opening := if windowFrom < rows[0].startsAt then 1 else 0;
    assert pieces[opening + k] == Held(rows, k, asOf);
    ClipKeepsPiece(pieces, opening + k, windowFrom);
  }

  lemma {:induction false} TiedGapShows(spans: seq<Span>, gone: seq<Window>, windowFrom: Instant, asOf: Instant)
    returns (rows: seq<Island>)
    requires Readable(spans, asOf) && TiedGap(Islands(spans), windowFrom)
    ensures QueryResult(spans, rows) && rows != [] && !GapsBounded(CoverOf(rows, gone, windowFrom, asOf))
  {
    var islands := Islands(spans);
    var i: nat, j: nat :| i < |islands| && j < |islands| && GapTies(islands, i, j, windowFrom);
    var k := Min(i, j);
    ExchangedQualifies(spans, k, i);
    rows := Exchanged(islands, k, i);
    RowsStartAlike(spans, rows, asOf);
    assert islands[k].startsAt <= islands[k + 1].startsAt <= islands[Max(i, j)].startsAt;
    EmptyHeadHasGap(rows, gone, windowFrom, asOf, k);
  }

  /** The cover of these rows assumes nowhere more than it holds. */
  ghost predicate KeepsGaps(rows: seq<Island>, gone: seq<Window>, windowFrom: Instant, asOf: Instant) {
    rows != [] && GapsBounded(CoverOf(rows, gone, windowFrom, asOf))
  }

  /** In the spans' own order no interval assumes more than it holds, the straddling one included;
      in every order the query may return, exactly when no stretch with a hole in it opens inside
      the window at the same instant as another. */
  lemma {:induction false} CoverGapsAreBounded(spans: seq<Span>, gone: seq<Window>, windowFrom: Instant, asOf: Instant)
    requires Readable(spans, asOf)
    ensures KeepsGaps(Islands(spans), gone, windowFrom, asOf)
    ensures (forall rows :: QueryResult(spans, rows) ==> KeepsGaps(rows, gone, windowFrom, asOf))
            <==> !TiedGap(Islands(spans), windowFrom)
  {
    IslandsAreRuns(spans);
    RunsAreOrdered(spans, |spans|);
    OrderKeepsGaps(spans, Islands(spans), gone, windowFrom, asOf);
    if TiedGap(Islands(spans), windowFrom) {
      var rows := TiedGapShows(spans, gone, windowFrom, asOf);
      assert QueryResult(spans, rows);
    } else {
      forall rows | QueryResult(spans, rows)
        ensures KeepsGaps(rows, gone, windowFrom, asOf)
      {
        OrderKeepsGaps(spans, rows, gone, windowFrom, asOf);
      }
    }
  }

  // --- an input that shows each --------------------------------------------------------------

  /** Two stretches that open at one instant, returned reversed: the cover loses sight of a Mac the
      spans still witness. */
  lemma {:induction false} TiesCanMisread() returns (spans: seq<Span>, rows: seq<Island>, piece: Interval, t: Instant)
    ensures Readable(spans, 20) && QueryResult(spans, rows) && rows != []
    ensures Naive(spans, [], 20, t).state == Observed
    ensures piece in CoverOf(rows, [], 0, 20) && piece.startsAt <= t < piece.endsAt && piece.state == NotObserved
  {
    var a, b := Span(None, 10, 10, 10, 10, 1), Span(Some("v0:b"), 10, 15, 10, 15, 2);
    spans, rows, t := [a, b], [Alone(b), Alone(a)], 12;
    TiedQuery(a, b);
    piece := Gap(NotObserved, 10, 20);
    TiedCover(rows, piece);
  }

  lemma {:induction false} TiedQuery(a: Span, b: Span)
    requires a.digest != b.digest && a.firstObserved == b.firstObserved
    requires a.firstObserved <= a.lastObserved && b.firstObserved <= b.lastObserved
    ensures QueryResult([a, b], [Alone(b), Alone(a)])
  {
    var spans := [a, b];
    assert Runs(spans, 1) == [Alone(a)];
    assert Runs(spans, 2) == [Alone(a)] + [Alone(b)];
    IslandsAreRuns(spans);
    assert multiset(Islands(spans)) == multiset{Alone(a), Alone(b)};
  }

  lemma {:induction false} TiedCover(rows: seq<Island>, piece: Interval)
    requires |rows| == 2 && rows[0].startsAt == rows[1].startsAt == 10
    requires rows[0].lastObserved == 15 && rows[1].lastObserved == 10
    requires piece == Gap(NotObserved, 10, 20)
    ensures piece in CoverOf(rows, [], 0, 20)
  {
    var pieces := Unclipped(rows, [], 0, 20);
    UnclippedIsContiguous(rows, [], 0, 20);
    assert TailPieces(10, 20, []) == [piece];
    assert pieces[|pieces| - 1] == piece;
    ClipKeepsPiece(pieces, |pieces| - 1, 0);
  }

  /** A second aperture's read opens a stretch beside another's at one report date; returned before
      it, the stretch is printed with no length and the hole it has later. */
  lemma {:induction false} TiesCanOverstate() returns (spans: seq<Span>, rows: seq<Island>, piece: Interval)
    ensures Readable(spans, 20) && QueryResult(spans, rows) && rows != []
    ensures piece in CoverOf(rows, [], 0, 20) && piece.Duration() == 0 && piece.longestGap == 4
  {
    var a, b := Span(Some("v0:a"), 10, 10, 10, 10, 1), Span(Some("v0:b"), 10, 10, 10, 10, 1);
    var later := Span(Some("v0:b"), 14, 15, 14, 15, 2);
    spans, rows := [a, b, later], [Widen(Alone(b), b, later), Alone(a)];
    TiedGapQuery(a, b, later);
    RowsAreCoverable(spans, rows, 20);
    piece := Held(rows, 0, 20);
    EmptyHeadHasGap(rows, [], 0, 20, 0);
  }

  lemma {:induction false} ReversedPair(first: Island, second: Island)
    ensures multiset([first, second]) == multiset([second, first])
  {
    assert [first, second] == [first] + [second] && [second, first] == [second] + [first];
  }

  lemma {:induction false} TiedGapQuery(a: Span, b: Span, later: Span)
    requires a.digest != b.digest == later.digest && a.firstObserved == b.firstObserved <= later.firstObserved
    requires a.firstObserved <= a.lastObserved && b.firstObserved <= b.lastObserved
    requires later.firstObserved <= later.lastObserved
    ensures QueryResult([a, b, later], [Widen(Alone(b), b, later), Alone(a)])
  {
    var first, second := Alone(a), Widen(Alone(b), b, later);
    TiedGapRuns(a, b, later);
    IslandsAreRuns([a, b, later]);
    ReversedPair(first, second);
  }

  lemma {:induction false} TiedGapRuns(a: Span, b: Span, later: Span)
    requires a.digest != b.digest == later.digest
    ensures Runs([a, b, later], 3) == [Alone(a), Widen(Alone(b), b, later)]
  {
    var spans := [a, b, later];
    assert Runs(spans, 1) == [Alone(a)];
    assert Runs(spans, 2) == [Alone(a), Alone(b)];
  }
}
