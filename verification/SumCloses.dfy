/** The three-way sum: met + unmet + not observed is the window, on the seconds printed. */
module SumCloses {
  import opened Prelude
  import opened Intervals
  import opened IslandRuns
  import opened ExactCover
  import opened Tallies
  import opened Report

  /** The printed seconds of those of the first `n` rows a bucket keeps. */
  function KeptTo(rows: seq<Row>, n: nat, bucket: Bucket): int
    requires n <= |rows|
  {
    if n == 0 then 0
    else
      KeptTo(rows, n - 1, bucket)
      + if bucket.Keeps(rows[n - 1].rule, rows[n - 1].device) then rows[n - 1].seconds else 0
  }

  function Kept(rows: seq<Row>, bucket: Bucket): int {
    KeptTo(rows, |rows|, bucket)
  }

  lemma {:induction false} KeptOfLeft(left: seq<Row>, right: seq<Row>, n: nat, bucket: Bucket)
    requires n <= |left|
    ensures KeptTo(left + right, n, bucket) == KeptTo(left, n, bucket)
  {
    if n > 0 {
      KeptOfLeft(left, right, n - 1, bucket);
    }
  }

  lemma {:induction false} KeptOfRight(left: seq<Row>, right: seq<Row>, n: nat, bucket: Bucket)
    requires n <= |right|
    ensures KeptTo(left + right, |left| + n, bucket) == Kept(left, bucket) + KeptTo(right, n, bucket)
  {
    if n == 0 {
      KeptOfLeft(left, right, |left|, bucket);
    } else {
      KeptOfRight(left, right, n - 1, bucket);
    }
  }

  lemma {:induction false} KeptOfBoth(left: seq<Row>, right: seq<Row>, bucket: Bucket)
    ensures Kept(left + right, bucket) == Kept(left, bucket) + Kept(right, bucket)
  {
    KeptOfRight(left, right, |right|, bucket);
  }

  // --- the dictionaries hold what the rows say ----------------------------------------------

  /** A tally's window: every second it was ever given. */
  function Window(tally: Tally): int {
    TotalsOf(tally).window
  }

  lemma {:induction false} AddKeepsTime(tally: Tally, state: Verdict, seconds: int)
    ensures Window(tally.Add(state, seconds)) == Window(tally) + seconds
  {
  }

  function WindowAt(tallies: map<string, Tally>, id: string): int {
    if id in tallies then Window(tallies[id]) else 0
  }

  lemma {:induction false} AddToKeepsTime(tallies: map<string, Tally>, to: string, row: Row, id: string)
    ensures WindowAt(AddTo(tallies, to, row), id) == WindowAt(tallies, id) + if id == to then row.seconds else 0
  {
    AddKeepsTime(if to in tallies then tallies[to] else EMPTY, row.state, row.seconds);
  }

  lemma {:induction false} FleetIsKept(rows: seq<Row>, n: nat)
    requires n <= |rows|
    ensures Window(SumsTo(rows, n).fleet) == KeptTo(rows, n, Fleet)
  {
    if n > 0 {
      FleetIsKept(rows, n - 1);
      AddKeepsTime(SumsTo(rows, n - 1).fleet, rows[n - 1].state, rows[n - 1].seconds);
    }
  }

  /** A rule has a bucket exactly where it has a row, and its window is its rows' seconds. */
  lemma {:induction false} RuleIsKept(rows: seq<Row>, n: nat, id: RuleId)
    requires n <= |rows|
    ensures WindowAt(SumsTo(rows, n).perRule, id) == KeptTo(rows, n, OfRule(id))
    ensures id in SumsTo(rows, n).perRule <==> HasRule(rows, n, id)
  {
    if n > 0 {
      RuleIsKept(rows, n - 1, id);
      AddToKeepsTime(SumsTo(rows, n - 1).perRule, rows[n - 1].rule, rows[n - 1], id);
    }
  }

  lemma {:induction false} DeviceIsKept(rows: seq<Row>, n: nat, id: DeviceId)
    requires n <= |rows|
    ensures WindowAt(SumsTo(rows, n).perDevice, id) == KeptTo(rows, n, OfDevice(id))
    ensures id in SumsTo(rows, n).perDevice <==> HasDevice(rows, n, id)
  {
    if n > 0 {
      DeviceIsKept(rows, n - 1, id);
      AddToKeepsTime(SumsTo(rows, n - 1).perDevice, rows[n - 1].device, rows[n - 1], id);
    }
  }

  // --- rules and devices -------------------------------------------------------------------

  /** `seconds` once for every one of the first `n` rules the bucket keeps for a device. */
  function RulesKept(rules: seq<Rule>, n: nat, device: DeviceId, bucket: Bucket, seconds: int): int
    requires n <= |rules|
  {
    if n == 0 then 0
    else RulesKept(rules, n - 1, device, bucket, seconds) + if bucket.Keeps(rules[n - 1].id, device) then seconds else 0
  }

  lemma {:induction false} RulesKeptAdds(rules: seq<Rule>, n: nat, device: DeviceId, bucket: Bucket, a: int, b: int)
    requires n <= |rules|
    ensures RulesKept(rules, n, device, bucket, a) + RulesKept(rules, n, device, bucket, b)
            == RulesKept(rules, n, device, bucket, a + b)
  {
    if n > 0 {
      RulesKeptAdds(rules, n - 1, device, bucket, a, b);
    }
  }

  lemma {:induction false} IntervalSum(
    rules: seq<Rule>, n: nat, device: DeviceId, interval: Interval, judge: Judge, bucket: Bucket)
    requires n <= |rules|
    ensures Kept(IntervalRows(rules, n, device, interval, judge), bucket)
            == RulesKept(rules, n, device, bucket, Seconds(interval))
  {
    if n > 0 {
      var row := RowOf(rules[n - 1], device, interval, judge);
      IntervalSum(rules, n - 1, device, interval, judge, bucket);
      KeptOfBoth(IntervalRows(rules, n - 1, device, interval, judge), [row], bucket);
      assert Kept([row], bucket) == KeptTo([row], 0, bucket) + if bucket.Keeps(row.rule, row.device) then row.seconds else 0;
    }
  }

  /** Where the first `n` intervals end. */
  function EndOf(intervals: seq<Interval>, n: nat, from: Instant): Instant
    requires n <= |intervals|
  {
    if n == 0 then from else intervals[n - 1].endsAt
  }

  lemma {:induction false} NoSeconds(rules: seq<Rule>, n: nat, device: DeviceId, bucket: Bucket)
    requires n <= |rules|
    ensures RulesKept(rules, n, device, bucket, 0) == 0
  {
    if n > 0 {
      NoSeconds(rules, n - 1, device, bucket);
    }
  }

  /** Adjacent intervals share a boundary, so floored boundaries telescope. */
  lemma {:induction false} SubjectSum(
    rules: seq<Rule>, device: DeviceId, intervals: seq<Interval>, n: nat, from: Instant, to: Instant, judge: Judge,
    bucket: Bucket)
    requires n <= |intervals| && Contiguous(intervals, from, to)
    ensures Kept(SubjectRows(rules, device, intervals, n, judge), bucket)
            == RulesKept(rules, |rules|, device, bucket, Floor(EndOf(intervals, n, from)) - Floor(from))
  {
    if n == 0 {
      NoSeconds(rules, |rules|, device, bucket);
    } else {
      SubjectSum(rules, device, intervals, n - 1, from, to, judge, bucket);
      IntervalSum(rules, |rules|, device, intervals[n - 1], judge, bucket);
      assert EndOf(intervals, n - 1, from) == intervals[n - 1].startsAt;
      KeptOfBoth(SubjectRows(rules, device, intervals, n - 1, judge),
                 IntervalRows(rules, |rules|, device, intervals[n - 1], judge), bucket);
      RulesKeptAdds(rules, |rules|, device, bucket,
                    Floor(EndOf(intervals, n - 1, from)) - Floor(from), Seconds(intervals[n - 1]));
    }
  }

  lemma {:induction false} WholeSubjectSum(
    rules: seq<Rule>, subject: SubjectIntervals, from: Instant, to: Instant, judge: Judge, bucket: Bucket)
    requires Contiguous(subject.intervals, from, to)
    ensures Kept(SubjectRows(rules, subject.id, subject.intervals, |subject.intervals|, judge), bucket)
            == RulesKept(rules, |rules|, subject.id, bucket, Floor(to) - Floor(from))
  {
    SubjectSum(rules, subject.id, subject.intervals, |subject.intervals|, from, to, judge, bucket);
  }

  /** Every subject covers the window `[from, to]`. */
  ghost predicate AllCover(subjects: seq<SubjectIntervals>, from: Instant, to: Instant) {
    forall d :: 0 <= d < |subjects| ==> Contiguous(subjects[d].intervals, from, to)
  }

  /** `seconds` once for every (rule, device) pair the bucket keeps, over the first `n` devices. */
  function PairsKept(rules: seq<Rule>, ids: seq<DeviceId>, n: nat, bucket: Bucket, seconds: int): int
    requires n <= |ids|
  {
    if n == 0 then 0
    else PairsKept(rules, ids, n - 1, bucket, seconds) + RulesKept(rules, |rules|, ids[n - 1], bucket, seconds)
  }

  function Ids(subjects: seq<SubjectIntervals>): seq<DeviceId> {
    seq(|subjects|, d requires 0 <= d < |subjects| => subjects[d].id)
  }

  lemma {:induction false} SectionSum(
    rules: seq<Rule>, subjects: seq<SubjectIntervals>, n: nat, from: Instant, to: Instant, judge: Judge, bucket: Bucket)
    requires n <= |subjects| && AllCover(subjects, from, to)
    ensures Kept(SectionRows(rules, subjects, n, judge), bucket)
            == PairsKept(rules, Ids(subjects), n, bucket, Floor(to) - Floor(from))
  {
    if n > 0 {
      var subject := subjects[n - 1];
      SectionSum(rules, subjects, n - 1, from, to, judge, bucket);
      WholeSubjectSum(rules, subject, from, to, judge, bucket);
      KeptOfBoth(SectionRows(rules, subjects, n - 1, judge),
                 SubjectRows(rules, subject.id, subject.intervals, |subject.intervals|, judge), bucket);
    }
  }

  // --- every section holds the same subjects ------------------------------------------------

  ghost predicate InOrder(spans: seq<LedgerSpan>) {
    && (forall i :: 0 <= i < |spans| ==> spans[i].firstObserved <= spans[i].lastObserved)
    && (forall i, j :: 0 <= i < j < |spans| ==> spans[i].firstObserved <= spans[j].firstObserved)
  }

  /** A partition per subject, each in window order. */
  ghost predicate ValidLedger(ledger: seq<Subject>) {
    && (forall i :: 0 <= i < |ledger| ==> InOrder(ledger[i].spans))
    && (forall i, j :: 0 <= i < j < |ledger| ==> ledger[i].id != ledger[j].id)
  }

  predicate SeenBy(spans: seq<LedgerSpan>, n: nat, asOf: Instant)
    requires n <= |spans|
  {
    exists i :: 0 <= i < n && spans[i].firstObserved <= asOf
  }

  /** The subjects with a span at or below `as_of`: nothing of the section in it. */
  function Present(ledger: seq<Subject>, n: nat, asOf: Instant): seq<DeviceId>
    requires n <= |ledger|
  {
    if n == 0 then []
    else
      Present(ledger, n - 1, asOf)
      + if SeenBy(ledger[n - 1].spans, |ledger[n - 1].spans|, asOf) then [ledger[n - 1].id] else []
  }

  lemma {:induction false} ReadIsReadable(spans: seq<LedgerSpan>, n: nat, section: Section, asOf: Instant)
    requires n <= |spans| && InOrder(spans)
    ensures ValidSpans(ReadTo(spans, n, section, asOf))
    ensures forall i :: 0 <= i < |ReadTo(spans, n, section, asOf)| ==>
              ReadTo(spans, n, section, asOf)[i].firstObserved <= asOf
              && ReadTo(spans, n, section, asOf)[i].firstObserved <= spans[n - 1].firstObserved
    ensures ReadTo(spans, n, section, asOf) != [] <==> SeenBy(spans, n, asOf)
  {
    if n > 0 {
      ReadIsReadable(spans, n - 1, section, asOf);
    }
  }

  /** For every subject and section the query returned that section's groups, ties in any order. */
  ghost predicate Answered(query: Query, ledger: seq<Subject>, asOf: Instant) {
    forall i, section :: 0 <= i < |ledger| ==> QueryResult(Read(ledger[i], section, asOf), query(ledger[i], section))
  }

  lemma {:induction false} SomeRows(spans: seq<Span>, rows: seq<Island>)
    requires ValidSpans(spans) && QueryResult(spans, rows)
    ensures rows == [] <==> spans == []
  {
    IslandsAreRuns(spans);
    assert |multiset(rows)| == |multiset(Islands(spans))|;
  }

  /** What one subject's entry must be: its cover of the window, or nothing where it was not seen. */
  ghost predicate Entry(cover: seq<SubjectIntervals>, subject: Subject, from: Instant, asOf: Instant) {
    && AllCover(cover, from, asOf)
    && Ids(cover) == if SeenBy(subject.spans, |subject.spans|, asOf) then [subject.id] else []
  }

  lemma {:induction false} EntryOfOne(id: DeviceId, intervals: seq<Interval>, from: Instant, to: Instant)
    requires Contiguous(intervals, from, to)
    ensures AllCover([SubjectIntervals(id, intervals)], from, to) && Ids([SubjectIntervals(id, intervals)]) == [id]
  {
  }

  lemma {:induction false} SubjectIsCovered(
    subject: Subject, section: Section, query: Query, gone: Departures, from: Instant, asOf: Instant)
    requires InOrder(subject.spans) && from <= asOf
    requires QueryResult(Read(subject, section, asOf), query(subject, section))
    ensures Entry(SubjectCover(subject, section, query, gone, from, asOf), subject, from, asOf)
  {
    var read, rows := Read(subject, section, asOf), query(subject, section);
    ReadIsReadable(subject.spans, |subject.spans|, section, asOf);
    SomeRows(read, rows);
    if read != [] {
      CoverIsExact(read, rows, GoneOf(gone, subject.id), from, asOf);
      EntryOfOne(subject.id, CoverOf(rows, GoneOf(gone, subject.id), from, asOf), from, asOf);
    }
  }

  lemma {:induction false} SubjectsJoin(
    left: seq<SubjectIntervals>, right: seq<SubjectIntervals>, from: Instant, to: Instant)
    requires AllCover(left, from, to) && AllCover(right, from, to)
    ensures AllCover(left + right, from, to) && Ids(left + right) == Ids(left) + Ids(right)
  {
  }

  lemma {:induction false} EntriesAgree(
    covers: seq<seq<SubjectIntervals>>, ledger: seq<Subject>, n: nat, from: Instant, asOf: Instant)
    requires n <= |covers| == |ledger|
    requires forall i :: 0 <= i < |ledger| ==> Entry(covers[i], ledger[i], from, asOf)
    ensures Ids(Entries(covers, n)) == Present(ledger, n, asOf)
    ensures AllCover(Entries(covers, n), from, asOf)
  {
    if n > 0 {
      EntriesAgree(covers, ledger, n - 1, from, asOf);
      assert Entry(covers[n - 1], ledger[n - 1], from, asOf);
      SubjectsJoin(Entries(covers, n - 1), covers[n - 1], from, asOf);
    }
  }

  /** The same subjects, whatever the section, each covering the whole window. */
  lemma {:induction false} SectionsAgree(
    ledger: seq<Subject>, section: Section, query: Query, gone: Departures, from: Instant, asOf: Instant)
    requires ValidLedger(ledger) && Answered(query, ledger, asOf) && from <= asOf
    ensures Ids(SectionLedger(ledger, section, query, gone, from, asOf)) == Present(ledger, |ledger|, asOf)
    ensures AllCover(SectionLedger(ledger, section, query, gone, from, asOf), from, asOf)
  {
    forall i | 0 <= i < |ledger|
      ensures Entry(SubjectCovers(ledger, section, query, gone, from, asOf)[i], ledger[i], from, asOf)
    {
      SubjectIsCovered(ledger[i], section, query, gone, from, asOf);
    }
    EntriesAgree(SubjectCovers(ledger, section, query, gone, from, asOf), ledger, |ledger|, from, asOf);
  }

  // --- over every section ------------------------------------------------------------------

  /** Pairs kept, section by section, over the first `m` devices. */
  function SectionPairs(
    sections: seq<SectionRules>, n: nat, ids: seq<DeviceId>, m: nat, bucket: Bucket, seconds: int): int
    requires n <= |sections| && m <= |ids|
  {
    if n == 0 then 0
    else
      SectionPairs(sections, n - 1, ids, m, bucket, seconds) + PairsKept(sections[n - 1].rules, ids, m, bucket, seconds)
  }

  /** Every section's ledger holds the same devices and covers the window. */
  ghost predicate Agreeing(ledgers: seq<seq<SubjectIntervals>>, ids: seq<DeviceId>, from: Instant, to: Instant) {
    forall s :: 0 <= s < |ledgers| ==> Ids(ledgers[s]) == ids && AllCover(ledgers[s], from, to)
  }

  lemma {:induction false} LedgersAgree(
    sections: seq<SectionRules>, ledger: seq<Subject>, query: Query, gone: Departures, from: Instant, asOf: Instant)
    requires ValidLedger(ledger) && Answered(query, ledger, asOf) && from <= asOf
    ensures Agreeing(Ledgers(sections, ledger, query, gone, from, asOf), Present(ledger, |ledger|, asOf), from, asOf)
  {
    forall s | 0 <= s < |sections|
      ensures Ids(Ledgers(sections, ledger, query, gone, from, asOf)[s]) == Present(ledger, |ledger|, asOf)
      ensures AllCover(Ledgers(sections, ledger, query, gone, from, asOf)[s], from, asOf)
    {
      SectionsAgree(ledger, sections[s].section, query, gone, from, asOf);
    }
  }

  lemma {:induction false} SectionsSum(
    sections: seq<SectionRules>, ledgers: seq<seq<SubjectIntervals>>, n: nat, ids: seq<DeviceId>, from: Instant,
    to: Instant,
    judge: Judge, bucket: Bucket)
    requires n <= |sections| == |ledgers| && Agreeing(ledgers, ids, from, to)
    ensures Kept(AllRows(sections, ledgers, n, judge), bucket)
            == SectionPairs(sections, n, ids, |ids|, bucket, Floor(to) - Floor(from))
  {
    if n > 0 {
      var rules, subjects := sections[n - 1].rules, ledgers[n - 1];
      SectionsSum(sections, ledgers, n - 1, ids, from, to, judge, bucket);
      SectionSum(rules, subjects, |subjects|, from, to, judge, bucket);
      assert |Ids(subjects)| == |subjects|;
      KeptOfBoth(AllRows(sections, ledgers, n - 1, judge), SectionRows(rules, subjects, |subjects|, judge), bucket);
    }
  }

  // --- grouping by section loses no rule ----------------------------------------------------

  /** The rules the bucket keeps for one device, section by section. */
  function GroupedKept(sections: seq<SectionRules>, n: nat, device: DeviceId, bucket: Bucket, seconds: int): int
    requires n <= |sections|
  {
    if n == 0 then 0
    else
      GroupedKept(sections, n - 1, device, bucket, seconds)
      + RulesKept(sections[n - 1].rules, |sections[n - 1].rules|, device, bucket, seconds)
  }

  lemma {:induction false} GroupedFront(
    sections: seq<SectionRules>, n: nat, device: DeviceId, bucket: Bucket, seconds: int)
    requires 0 < n <= |sections|
    ensures GroupedKept(sections, n, device, bucket, seconds)
            == RulesKept(sections[0].rules, |sections[0].rules|, device, bucket, seconds)
               + GroupedKept(sections[1..], n - 1, device, bucket, seconds)
  {
    if n > 1 {
      GroupedFront(sections, n - 1, device, bucket, seconds);
    }
  }

  lemma {:induction false} RulesKeptOfMore(
    rules: seq<Rule>, rule: Rule, n: nat, device: DeviceId, bucket: Bucket, seconds: int)
    requires n <= |rules|
    ensures RulesKept(rules + [rule], n, device, bucket, seconds) == RulesKept(rules, n, device, bucket, seconds)
  {
    if n > 0 {
      RulesKeptOfMore(rules, rule, n - 1, device, bucket, seconds);
    }
  }

  lemma {:induction false} FiledKeeps(
    sections: seq<SectionRules>, rule: Rule, device: DeviceId, bucket: Bucket, seconds: int)
    ensures GroupedKept(Filed(sections, rule), |Filed(sections, rule)|, device, bucket, seconds)
            == GroupedKept(sections, |sections|, device, bucket, seconds)
               + if bucket.Keeps(rule.id, device) then seconds else 0
  {
    var filed := Filed(sections, rule);
    GroupedFront(filed, |filed|, device, bucket, seconds);
    if sections == [] {
      RulesKeptOfMore([], rule, 0, device, bucket, seconds);
    } else {
      GroupedFront(sections, |sections|, device, bucket, seconds);
      if sections[0].section == rule.section {
        RulesKeptOfMore(sections[0].rules, rule, |sections[0].rules|, device, bucket, seconds);
        assert filed[1..] == sections[1..];
      } else {
        FiledKeeps(sections[1..], rule, device, bucket, seconds);
        assert filed[1..] == Filed(sections[1..], rule);
      }
    }
  }

  lemma {:induction false} GroupingKeeps(rules: seq<Rule>, n: nat, device: DeviceId, bucket: Bucket, seconds: int)
    requires n <= |rules|
    ensures GroupedKept(Grouped(rules, n), |Grouped(rules, n)|, device, bucket, seconds)
            == RulesKept(rules, n, device, bucket, seconds)
  {
    if n > 0 {
      GroupingKeeps(rules, n - 1, device, bucket, seconds);
      FiledKeeps(Grouped(rules, n - 1), rules[n - 1], device, bucket, seconds);
    }
  }

  lemma {:induction false} NextDevice(
    sections: seq<SectionRules>, n: nat, ids: seq<DeviceId>, m: nat, bucket: Bucket, seconds: int)
    requires n <= |sections| && 0 < m <= |ids|
    ensures SectionPairs(sections, n, ids, m, bucket, seconds)
            == SectionPairs(sections, n, ids, m - 1, bucket, seconds)
               + GroupedKept(sections, n, ids[m - 1], bucket, seconds)
  {
    if n > 0 {
      NextDevice(sections, n - 1, ids, m, bucket, seconds);
    }
  }

  lemma {:induction false} NoDevice(
    sections: seq<SectionRules>, n: nat, ids: seq<DeviceId>, bucket: Bucket, seconds: int)
    requires n <= |sections|
    ensures SectionPairs(sections, n, ids, 0, bucket, seconds) == 0
  {
    if n > 0 {
      NoDevice(sections, n - 1, ids, bucket, seconds);
    }
  }

  /** Counting the pairs section by section is counting them device by device. */
  lemma {:induction false} PairsByDevice(rules: seq<Rule>, ids: seq<DeviceId>, m: nat, bucket: Bucket, seconds: int)
    requires m <= |ids|
    ensures SectionPairs(Grouped(rules, |rules|), |Grouped(rules, |rules|)|, ids, m, bucket, seconds)
            == PairsKept(rules, ids, m, bucket, seconds)
  {
    var sections := Grouped(rules, |rules|);
    if m == 0 {
      NoDevice(sections, |sections|, ids, bucket, seconds);
    } else {
      PairsByDevice(rules, ids, m - 1, bucket, seconds);
      NextDevice(sections, |sections|, ids, m, bucket, seconds);
      GroupingKeeps(rules, |rules|, ids[m - 1], bucket, seconds);
    }
  }

  // --- how many pairs each bucket keeps -----------------------------------------------------

  /** How many rules of the catalogue carry the id: one, where ids are unique. */
  function Named(rules: seq<Rule>, n: nat, id: RuleId): nat
    requires n <= |rules|
  {
    if n == 0 then 0 else Named(rules, n - 1, id) + if rules[n - 1].id == id then 1 else 0
  }

  lemma {:induction false} OneMore(k: int, seconds: int)
    ensures (k + 1) * seconds == k * seconds + seconds
  {
  }

  lemma {:induction false} RulesKeptByFleet(rules: seq<Rule>, n: nat, device: DeviceId, rule: RuleId, seconds: int)
    requires n <= |rules|
    ensures RulesKept(rules, n, device, Fleet, seconds) == n * seconds
    ensures RulesKept(rules, n, device, OfRule(rule), seconds) == Named(rules, n, rule) * seconds
  {
    if n > 0 {
      RulesKeptByFleet(rules, n - 1, device, rule, seconds);
      OneMore(n - 1, seconds);
      OneMore(Named(rules, n - 1, rule), seconds);
    }
  }

  lemma {:induction false} RulesKeptByDevice(
    rules: seq<Rule>, n: nat, device: DeviceId, rule: RuleId, d: DeviceId, seconds: int)
    requires n <= |rules|
    ensures RulesKept(rules, n, device, OfDevice(d), seconds)
            == if device == d then RulesKept(rules, n, device, Fleet, seconds) else 0
    ensures RulesKept(rules, n, device, OfPair(rule, d), seconds)
            == if device == d then RulesKept(rules, n, device, OfRule(rule), seconds) else 0
  {
    if n > 0 {
      RulesKeptByDevice(rules, n - 1, device, rule, d, seconds);
    }
  }

  lemma {:induction false} PairsKeptByAll(rules: seq<Rule>, ids: seq<DeviceId>, n: nat, rule: RuleId, seconds: int)
    requires n <= |ids|
    ensures PairsKept(rules, ids, n, Fleet, seconds) == n * (|rules| * seconds)
    ensures PairsKept(rules, ids, n, OfRule(rule), seconds) == n * (Named(rules, |rules|, rule) * seconds)
  {
    if n > 0 {
      PairsKeptByAll(rules, ids, n - 1, rule, seconds);
      RulesKeptByFleet(rules, |rules|, ids[n - 1], rule, seconds);
      OneMore(n - 1, |rules| * seconds);
      OneMore(n - 1, Named(rules, |rules|, rule) * seconds);
    }
  }

  ghost predicate Distinct(ids: seq<DeviceId>) {
    forall i, j :: 0 <= i < j < |ids| ==> ids[i] != ids[j]
  }

  predicate Among(ids: seq<DeviceId>, n: nat, d: DeviceId)
    requires n <= |ids|
  {
    exists i :: 0 <= i < n && ids[i] == d
  }

  lemma {:induction false} PairsKeptByOne(
    rules: seq<Rule>, ids: seq<DeviceId>, n: nat, rule: RuleId, d: DeviceId, seconds: int)
    requires n <= |ids| && Distinct(ids)
    ensures PairsKept(rules, ids, n, OfDevice(d), seconds) == if Among(ids, n, d) then |rules| * seconds else 0
    ensures PairsKept(rules, ids, n, OfPair(rule, d), seconds)
            == if Among(ids, n, d) then Named(rules, |rules|, rule) * seconds else 0
  {
    if n > 0 {
      PairsKeptByOne(rules, ids, n - 1, rule, d, seconds);
      RulesKeptByDevice(rules, |rules|, ids[n - 1], rule, d, seconds);
      RulesKeptByFleet(rules, |rules|, ids[n - 1], rule, seconds);
      assert Among(ids, n, d) <==> Among(ids, n - 1, d) || ids[n - 1] == d;
    }
  }

  lemma {:induction false} PresentIsDistinct(ledger: seq<Subject>, n: nat, asOf: Instant)
    requires n <= |ledger| && ValidLedger(ledger)
    ensures Distinct(Present(ledger, n, asOf))
    ensures forall i :: n <= i < |ledger| ==> ledger[i].id !in Present(ledger, n, asOf)
  {
    if n > 0 {
      PresentIsDistinct(ledger, n - 1, asOf);
    }
  }

  // --- the theorem -------------------------------------------------------------------------

  /** Rows of ledgers that agree on the subjects, by whatever sections file the rules. */
  lemma {:induction false} RowsSum(
    rules: seq<Rule>, ledgers: seq<seq<SubjectIntervals>>, ids: seq<DeviceId>, from: Instant, asOf: Instant,
    judge: Judge,
    bucket: Bucket, window: int)
    requires |ledgers| == |Grouped(rules, |rules|)| && Agreeing(ledgers, ids, from, asOf)
    requires window == Floor(asOf) - Floor(from)
    ensures Kept(AllRows(Grouped(rules, |rules|), ledgers, |ledgers|, judge), bucket)
            == PairsKept(rules, ids, |ids|, bucket, window)
  {
    var sections := Grouped(rules, |rules|);
    SectionsSum(sections, ledgers, |sections|, ids, from, asOf, judge, bucket);
    PairsByDevice(rules, ids, |ids|, bucket, window);
  }

  function RowsOf(rules: seq<Rule>, ledgers: seq<seq<SubjectIntervals>>, judge: Judge): seq<Row>
    requires |ledgers| == |Grouped(rules, |rules|)|
  {
    AllRows(Grouped(rules, |rules|), ledgers, |ledgers|, judge)
  }

  /** One ledger per section, each covering the window for the same subjects. */
  ghost predicate Closing(
    rules: seq<Rule>, ledgers: seq<seq<SubjectIntervals>>, ids: seq<DeviceId>, from: Instant, asOf: Instant,
    window: int)
  {
    && |ledgers| == |Grouped(rules, |rules|)| && Agreeing(ledgers, ids, from, asOf)
    && window == Floor(asOf) - Floor(from)
  }

  lemma {:induction false} PairOf(
    rules: seq<Rule>, ledgers: seq<seq<SubjectIntervals>>, ids: seq<DeviceId>, from: Instant, asOf: Instant,
    judge: Judge,
    window: int, rule: RuleId, device: DeviceId)
    requires Closing(rules, ledgers, ids, from, asOf, window) && Distinct(ids) && device in ids
    ensures Kept(RowsOf(rules, ledgers, judge), OfPair(rule, device)) == Named(rules, |rules|, rule) * window
  {
    RowsSum(rules, ledgers, ids, from, asOf, judge, OfPair(rule, device), window);
    PairsKeptByOne(rules, ids, |ids|, rule, device, window);
  }

  lemma {:induction false} RuleOf(
    rules: seq<Rule>, ledgers: seq<seq<SubjectIntervals>>, ids: seq<DeviceId>, from: Instant, asOf: Instant,
    judge: Judge,
    window: int, rule: RuleId)
    requires Closing(rules, ledgers, ids, from, asOf, window)
    ensures WindowAt(SumsOf(RowsOf(rules, ledgers, judge)).perRule, rule) == |ids| * (Named(rules, |rules|, rule) * window)
  {
    var rows := RowsOf(rules, ledgers, judge);
    RowsSum(rules, ledgers, ids, from, asOf, judge, OfRule(rule), window);
    PairsKeptByAll(rules, ids, |ids|, rule, window);
    RuleIsKept(rows, |rows|, rule);
  }

  lemma {:induction false} DeviceOf(
    rules: seq<Rule>, ledgers: seq<seq<SubjectIntervals>>, ids: seq<DeviceId>, from: Instant, asOf: Instant,
    judge: Judge,
    window: int, device: DeviceId)
    requires Closing(rules, ledgers, ids, from, asOf, window) && Distinct(ids) && device in ids
    ensures WindowAt(SumsOf(RowsOf(rules, ledgers, judge)).perDevice, device) == |rules| * window
  {
    var rows := RowsOf(rules, ledgers, judge);
    RowsSum(rules, ledgers, ids, from, asOf, judge, OfDevice(device), window);
    PairsKeptByOne(rules, ids, |ids|, "", device, window);
    DeviceIsKept(rows, |rows|, device);
  }

  lemma {:induction false} FleetOf(
    rules: seq<Rule>, ledgers: seq<seq<SubjectIntervals>>, ids: seq<DeviceId>, from: Instant, asOf: Instant,
    judge: Judge,
    window: int)
    requires Closing(rules, ledgers, ids, from, asOf, window)
    ensures Window(SumsOf(RowsOf(rules, ledgers, judge)).fleet) == |ids| * (|rules| * window)
  {
    var rows := RowsOf(rules, ledgers, judge);
    RowsSum(rules, ledgers, ids, from, asOf, judge, Fleet, window);
    PairsKeptByAll(rules, ids, |ids|, "", window);
    FleetIsKept(rows, |rows|);
  }

  /** The ledgers the report reads are such, and its rows are theirs. */
  lemma {:induction false} ReportCloses(
    rules: seq<Rule>, ledger: seq<Subject>, query: Query, gone: Departures, from: Instant, asOf: Instant, judge: Judge,
    window: int)
    returns (ledgers: seq<seq<SubjectIntervals>>, ids: seq<DeviceId>)
    requires ValidLedger(ledger) && Answered(query, ledger, asOf) && from <= asOf && window == Floor(asOf) - Floor(from)
    ensures ids == Present(ledger, |ledger|, asOf) && Distinct(ids)
    ensures Closing(rules, ledgers, ids, from, asOf, window)
    ensures ReportRows(rules, ledger, query, gone, from, asOf, judge) == RowsOf(rules, ledgers, judge)
  {
    ledgers := Ledgers(Grouped(rules, |rules|), ledger, query, gone, from, asOf);
    ids := Present(ledger, |ledger|, asOf);
    LedgersAgree(Grouped(rules, |rules|), ledger, query, gone, from, asOf);
    PresentIsDistinct(ledger, |ledger|, asOf);
  }

  // met + unmet + not observed = the window, on the printed seconds, for every ledger, every answer
  // of the query, every catalogue and every verdict. `window` is the report's own window between
  // floored boundaries.

  /** Per (rule, device): the rows' seconds are the window. */
  lemma {:induction false} PairCloses(
    rules: seq<Rule>, ledger: seq<Subject>, query: Query, gone: Departures, from: Instant, asOf: Instant, judge: Judge,
    window: int, rule: RuleId, device: DeviceId)
    requires ValidLedger(ledger) && Answered(query, ledger, asOf) && from <= asOf && window == Floor(asOf) - Floor(from)
    requires device in Present(ledger, |ledger|, asOf)
    ensures Kept(ReportRows(rules, ledger, query, gone, from, asOf, judge), OfPair(rule, device))
            == Named(rules, |rules|, rule) * window
  {
    var ledgers, ids := ReportCloses(rules, ledger, query, gone, from, asOf, judge, window);
    PairOf(rules, ledgers, ids, from, asOf, judge, window, rule, device);
  }

  /** `byRule`: the window once per subject, every section's ledger holding the same ones. */
  lemma {:induction false} RuleCloses(
    rules: seq<Rule>, ledger: seq<Subject>, query: Query, gone: Departures, from: Instant, asOf: Instant, judge: Judge,
    window: int, rule: RuleId)
    requires ValidLedger(ledger) && Answered(query, ledger, asOf) && from <= asOf && window == Floor(asOf) - Floor(from)
    ensures WindowAt(SumsOf(ReportRows(rules, ledger, query, gone, from, asOf, judge)).perRule, rule)
            == |Present(ledger, |ledger|, asOf)| * (Named(rules, |rules|, rule) * window)
  {
    var ledgers, ids := ReportCloses(rules, ledger, query, gone, from, asOf, judge, window);
    RuleOf(rules, ledgers, ids, from, asOf, judge, window, rule);
  }

  /** `byDevice`: the window once per rule. */
  lemma {:induction false} DeviceCloses(
    rules: seq<Rule>, ledger: seq<Subject>, query: Query, gone: Departures, from: Instant, asOf: Instant, judge: Judge,
    window: int, device: DeviceId)
    requires ValidLedger(ledger) && Answered(query, ledger, asOf) && from <= asOf && window == Floor(asOf) - Floor(from)
    requires device in Present(ledger, |ledger|, asOf)
    ensures WindowAt(SumsOf(ReportRows(rules, ledger, query, gone, from, asOf, judge)).perDevice, device) == |rules| * window
  {
    var ledgers, ids := ReportCloses(rules, ledger, query, gone, from, asOf, judge, window);
    DeviceOf(rules, ledgers, ids, from, asOf, judge, window, device);
  }

  /** `fleet`: the window once per subject and rule. */
  lemma {:induction false} FleetCloses(
    rules: seq<Rule>, ledger: seq<Subject>, query: Query, gone: Departures, from: Instant, asOf: Instant, judge: Judge,
    window: int)
    requires ValidLedger(ledger) && Answered(query, ledger, asOf) && from <= asOf && window == Floor(asOf) - Floor(from)
    ensures Window(SumsOf(ReportRows(rules, ledger, query, gone, from, asOf, judge)).fleet)
            == |Present(ledger, |ledger|, asOf)| * (|rules| * window)
  {
    var ledgers, ids := ReportCloses(rules, ledger, query, gone, from, asOf, judge, window);
    FleetOf(rules, ledgers, ids, from, asOf, judge, window);
  }
}
