/** What the interval query's groups are: the maximal runs of equal digests, in device time. */
module IslandRuns {
  import opened Prelude
  import opened Intervals

  /** A run widened by the next span with its digest: the direct reading of "coalesced". */
  function Widen(run: Island, prior: Span, next: Span): Island {
    run.(
      lastObserved := Max(run.lastObserved, next.lastObserved),
      firstCollected := Min(run.firstCollected, next.firstCollected),
      lastCollected := Max(run.lastCollected, next.lastCollected),
      observations := run.observations + next.observations,
      innerGap := MaxGap(run.innerGap, Some(next.firstObserved - prior.lastObserved)))
  }

  function Alone(span: Span): Island {
    Island(span.digest, span.firstObserved, span.lastObserved, span.firstCollected, span.lastCollected,
           span.observations, None)
  }

  /** A span that opens a stretch: the first one, and every one whose digest is not its
      predecessor's. */
  predicate Opens(spans: seq<Span>, i: nat)
    requires i < |spans|
  {
    i == 0 || spans[i - 1].digest != spans[i].digest
  }

  /** The maximal runs of equal digests among the first `n` spans, a NULL equal to a NULL: no
      numbering, no aggregates. */
  function Runs(spans: seq<Span>, n: nat): (runs: seq<Island>)
    requires n <= |spans|
    ensures n > 0 ==> runs != []
  {
    if n == 0 then []
    else
      var before := Runs(spans, n - 1);
      if Opens(spans, n - 1) then before + [Alone(spans[n - 1])]
      else before[|before| - 1 := Widen(before[|before| - 1], spans[n - 2], spans[n - 1])]
  }

  ghost predicate Ordered(rows: seq<Island>) {
    forall i, j :: 0 <= i < j < |rows| ==> rows[i].startsAt <= rows[j].startsAt
  }

  ghost predicate StrictlyOrdered(islands: seq<Island>) {
    forall i, j :: 0 <= i < j < |islands| ==> islands[i].startsAt < islands[j].startsAt
  }

  /** The runs in order: neighbours differ, each starts inside the spans' own bounds. */
  lemma {:induction false} RunsAreOrdered(spans: seq<Span>, n: nat)
    requires 0 < n <= |spans| && ValidSpans(spans)
    ensures Ordered(Runs(spans, n))
    ensures Runs(spans, n)[0].startsAt == spans[0].firstObserved
    ensures Runs(spans, n)[|Runs(spans, n)| - 1].digest == spans[n - 1].digest
    ensures forall k :: 0 <= k < |Runs(spans, n)| ==>
              spans[0].firstObserved <= Runs(spans, n)[k].startsAt <= spans[n - 1].firstObserved
    ensures forall k :: 0 <= k < |Runs(spans, n)| ==>
              Runs(spans, n)[k].startsAt <= Runs(spans, n)[k].lastObserved
    ensures forall k :: 0 <= k < |Runs(spans, n)| - 1 ==>
              Runs(spans, n)[k].digest != Runs(spans, n)[k + 1].digest
  {
    if n > 1 {
      RunsAreOrdered(spans, n - 1);
    }
  }

  // --- the groups are the runs -------------------------------------------------------------

  lemma {:induction false} NumbersRise(spans: seq<Span>, i: nat, j: nat)
    requires i <= j < |spans|
    ensures IslandNumber(spans, i) <= IslandNumber(spans, j)
  {
    if i < j {
      NumbersRise(spans, i, j - 1);
    }
  }

  lemma {:induction false} GroupsIgnoreHigher(marked: seq<Marked>, n: nat, end: nat)
    requires n < |marked| && end <= marked[n].island
    ensures Groups(marked, n + 1, end) == Groups(marked, n, end)
  {
    if end > 0 {
      GroupsIgnoreHigher(marked, n, end - 1);
    }
  }

  lemma {:induction false} NoGroupAbove(marked: seq<Marked>, n: nat, number: nat)
    requires n <= |marked| && forall i :: 0 <= i < n ==> marked[i].island < number
    ensures Group(marked, n, number).None?
  {
    if n > 0 {
      NoGroupAbove(marked, n - 1, number);
    }
  }

  lemma {:induction false} NoGroups(marked: seq<Marked>, end: nat)
    ensures Groups(marked, 0, end) == []
  {
    if end > 0 {
      NoGroups(marked, end - 1);
    }
  }

  lemma {:induction false} AbsorbIsWiden(run: Island, spans: seq<Span>, n: nat)
    requires 0 < n < |spans| && Same(spans, n)
    requires run.digest == spans[n].digest && run.startsAt <= spans[n].firstObserved
    ensures Absorb(run, Mark(spans)[n]) == Widen(run, spans[n - 1], spans[n])
  {
  }

  /** The groups over the first `n` rows, the last of them closing the list. */
  lemma {:induction false} GroupsAreRuns(spans: seq<Span>, n: nat)
    requires 0 < n <= |spans| && ValidSpans(spans)
    ensures Groups(Mark(spans), n, IslandNumber(spans, n - 1) + 1) == Runs(spans, n)
    ensures Group(Mark(spans), n, IslandNumber(spans, n - 1))
            == Some(Runs(spans, n)[|Runs(spans, n)| - 1])
  {
    var marked, number := Mark(spans), IslandNumber(spans, n - 1);
    assert marked[n - 1] == Marked(spans[n - 1], number, InnerGap(spans, n - 1));
    GroupsIgnoreHigher(marked, n - 1, number);
    if n == 1 {
      NoGroups(marked, number);
      assert Group(marked, 0, number).None?;
      assert Runs(spans, 0) == [];
      assert Groups(marked, 1, number + 1) == [Alone(spans[0])];
    } else {
      GroupsAreRuns(spans, n - 1);
      var before := Runs(spans, n - 1);
      if Same(spans, n - 1) {
        RunsAreOrdered(spans, n - 1);
        AbsorbIsWiden(before[|before| - 1], spans, n - 1);
      } else {
        forall i | 0 <= i < n - 1
          ensures marked[i].island < number
        {
          NumbersRise(spans, i, n - 2);
        }
        NoGroupAbove(marked, n - 1, number);
      }
    }
  }

  /** The query groups a subject's rows by a running sum; the groups are exactly the maximal
      runs of equal digests, whether or not the first digest is NULL. */
  lemma {:induction false} IslandsAreRuns(spans: seq<Span>)
    requires ValidSpans(spans)
    ensures Islands(spans) == Runs(spans, |spans|)
  {
    if spans != [] {
      GroupsAreRuns(spans, |spans|);
    }
  }

  /** Coalescing loses no observation: the islands' counts are the spans' counts. */
  function Observations(spans: seq<Span>, n: nat): nat
    requires n <= |spans|
  {
    if n == 0 then 0 else Observations(spans, n - 1) + spans[n - 1].observations
  }

  function IslandObservations(islands: seq<Island>, n: nat): nat
    requires n <= |islands|
  {
    if n == 0 then 0 else IslandObservations(islands, n - 1) + islands[n - 1].observations
  }

  lemma {:induction false} ObservationsAgree(islands: seq<Island>, others: seq<Island>, n: nat)
    requires n <= |islands| && n <= |others| && forall k :: 0 <= k < n ==> islands[k] == others[k]
    ensures IslandObservations(islands, n) == IslandObservations(others, n)
  {
    if n > 0 {
      ObservationsAgree(islands, others, n - 1);
    }
  }

  lemma {:induction false} ObservationsAreKept(spans: seq<Span>, n: nat)
    requires n <= |spans|
    ensures IslandObservations(Runs(spans, n), |Runs(spans, n)|) == Observations(spans, n)
  {
    if n > 0 {
      ObservationsAreKept(spans, n - 1);
      var before, runs := Runs(spans, n - 1), Runs(spans, n);
      ObservationsAgree(before, runs, |runs| - 1);
    }
  }

  // --- ORDER BY min(first_observed_at) -----------------------------------------------------

  /** What the query's last clause promises: the groups, ordered by their first observation and
      by nothing else, so two groups that tie may come back either way round. */
  ghost predicate QueryResult(spans: seq<Span>, rows: seq<Island>) {
    multiset(rows) == multiset(Islands(spans)) && Ordered(rows)
  }

  /** No two of the first `n` spans open a stretch at the same instant. */
  ghost predicate NoTies(spans: seq<Span>, n: nat)
    requires n <= |spans|
  {
    forall i, j :: 0 <= i < j < n && Opens(spans, i) && Opens(spans, j) ==>
      spans[i].firstObserved != spans[j].firstObserved
  }

  lemma {:induction false} LastOpening(spans: seq<Span>, n: nat) returns (last: nat)
    requires 0 < n <= |spans|
    ensures last < n && Opens(spans, last)
    ensures forall i :: last < i < n ==> !Opens(spans, i)
    ensures Runs(spans, n)[|Runs(spans, n)| - 1].startsAt == spans[last].firstObserved
  {
    if Opens(spans, n - 1) {
      last := n - 1;
    } else {
      last := LastOpening(spans, n - 1);
    }
  }

  lemma {:induction false} StrictWithOneMore(islands: seq<Island>, island: Island)
    requires islands != [] && Ordered(islands)
    ensures StrictlyOrdered(islands + [island])
            <==> StrictlyOrdered(islands) && islands[|islands| - 1].startsAt < island.startsAt
  {
    var more := islands + [island];
    if StrictlyOrdered(more) {
      assert forall i :: 0 <= i < |islands| ==> more[i] == islands[i];
      assert more[|islands| - 1].startsAt < more[|islands|].startsAt;
    }
  }

  lemma {:induction false} StrictOfLast(islands: seq<Island>, island: Island)
    requires islands != [] && islands[|islands| - 1].startsAt == island.startsAt
    ensures StrictlyOrdered(islands[|islands| - 1 := island]) <==> StrictlyOrdered(islands)
  {
    var same := islands[|islands| - 1 := island];
    assert forall i :: 0 <= i < |islands| ==> same[i].startsAt == islands[i].startsAt;
  }

  /** A span that opens a stretch ties with an earlier opening exactly when it ties with the
      latest one. */
  lemma {:induction false} NewOpeningTies(spans: seq<Span>, n: nat, last: nat)
    requires n < |spans| && ValidSpans(spans) && Opens(spans, n)
    requires last < n && Opens(spans, last) && forall i :: last < i < n ==> !Opens(spans, i)
    ensures NoTies(spans, n + 1)
            <==> NoTies(spans, n) && spans[last].firstObserved < spans[n].firstObserved
  {
    if NoTies(spans, n) && spans[last].firstObserved < spans[n].firstObserved {
      forall i, j | 0 <= i < j < n + 1 && Opens(spans, i) && Opens(spans, j)
        ensures spans[i].firstObserved != spans[j].firstObserved
      {
        if j == n {
          assert i <= last;
          assert spans[i].firstObserved <= spans[last].firstObserved;
        }
      }
    }
  }

  lemma {:induction false} NoTiesIsStrict(spans: seq<Span>, n: nat)
    requires n <= |spans| && ValidSpans(spans)
    ensures NoTies(spans, n) <==> StrictlyOrdered(Runs(spans, n))
  {
    if n > 0 {
      var before := Runs(spans, n - 1);
      NoTiesIsStrict(spans, n - 1);
      if !Opens(spans, n - 1) {
        StrictOfLast(before, Widen(before[|before| - 1], spans[n - 2], spans[n - 1]));
      } else if n > 1 {
        var last := LastOpening(spans, n - 1);
        RunsAreOrdered(spans, n - 1);
        StrictWithOneMore(before, Alone(spans[n - 1]));
        NewOpeningTies(spans, n - 1, last);
      }
    }
  }

  lemma {:induction false} FirstOfOrdered(rows: seq<Island>, islands: seq<Island>)
    requires multiset(rows) == multiset(islands) && islands != []
    requires StrictlyOrdered(islands) && Ordered(rows)
    ensures rows != [] && rows[0] == islands[0]
  {
    assert islands[0] in multiset(rows);
    assert islands[0] in rows;
    assert rows[0] in multiset(islands);
    assert rows[0] in islands;
  }

  lemma {:induction false} RestOfPermutation(rows: seq<Island>, islands: seq<Island>)
    requires rows != [] && islands != [] && rows[0] == islands[0]
    requires multiset(rows) == multiset(islands)
    ensures multiset(rows[1..]) == multiset(islands[1..])
  {
    assert rows == [rows[0]] + rows[1..];
    assert islands == [islands[0]] + islands[1..];
    assert multiset(rows[1..]) == multiset(rows) - multiset{rows[0]};
    assert multiset(islands[1..]) == multiset(islands) - multiset{rows[0]};
  }

  lemma {:induction false} OrderedPermutationIsUnique(rows: seq<Island>, islands: seq<Island>)
    requires multiset(rows) == multiset(islands)
    requires StrictlyOrdered(islands) && Ordered(rows)
    ensures rows == islands
  {
    if islands == [] {
      assert |multiset(rows)| == 0;
    } else {
      FirstOfOrdered(rows, islands);
      RestOfPermutation(rows, islands);
      OrderedPermutationIsUnique(rows[1..], islands[1..]);
      assert rows == [rows[0]] + rows[1..];
    }
  }

  lemma {:induction false} NeighboursTie(islands: seq<Island>) returns (k: nat)
    requires !StrictlyOrdered(islands) && Ordered(islands)
    ensures k + 1 < |islands| && islands[k].startsAt == islands[k + 1].startsAt
  {
    var i, j :| 0 <= i < j < |islands| && !(islands[i].startsAt < islands[j].startsAt);
    assert islands[i].startsAt <= islands[i + 1].startsAt <= islands[j].startsAt;
    k := i;
  }

  lemma {:induction false} SwappedIsOrdered(islands: seq<Island>, k: nat)
    requires Ordered(islands) && k + 1 < |islands| && islands[k].startsAt == islands[k + 1].startsAt
    requires islands[k] != islands[k + 1]
    ensures var rows := islands[k := islands[k + 1]][k + 1 := islands[k]];
            rows[k] != islands[k] && multiset(rows) == multiset(islands) && Ordered(rows)
  {
  }

  /** The query's answer is determined exactly where no two stretches open at one instant; the
      ledger lets two do so, when a second aperture reads a Mac at the same inventory time. */
  lemma {:induction false} QueryIsDetermined(spans: seq<Span>)
    requires ValidSpans(spans)
    ensures NoTies(spans, |spans|) <==> forall rows :: QueryResult(spans, rows) ==> rows == Islands(spans)
  {
    var islands := Islands(spans);
    IslandsAreRuns(spans);
    NoTiesIsStrict(spans, |spans|);
    if NoTies(spans, |spans|) {
      forall rows | QueryResult(spans, rows)
        ensures rows == islands
      {
        OrderedPermutationIsUnique(rows, islands);
      }
    } else {
      RunsAreOrdered(spans, |spans|);
      var k := NeighboursTie(islands);
      SwappedIsOrdered(islands, k);
      assert QueryResult(spans, islands[k := islands[k + 1]][k + 1 := islands[k]]);
    }
  }
}
