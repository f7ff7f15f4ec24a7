/** The evidence report: every rule's verdict over every interval, floored to the second and summed
    per rule, per device and over the fleet. */
module Report {
  import opened Prelude
  import opened Intervals
  import opened Tallies

  // --- the ledger, read per section --------------------------------------------------------

  type Section = string

  /** One row of `observation_spans`; a section the aperture never read has no digest. */
  datatype LedgerSpan = LedgerSpan(
    sectionDigests: map<Section, Digest>,
    firstObserved: Instant,
    lastObserved: Instant,
    firstCollected: Instant,
    lastCollected: Instant,
    observations: nat)

  /** One subject's partition of the table, in the order of the query's window. */
  datatype Subject = Subject(id: DeviceId, spans: seq<LedgerSpan>)

  function ForSection(span: LedgerSpan, section: Section): Span {
    Span(if section in span.sectionDigests then Some(span.sectionDigests[section]) else None,
         span.firstObserved, span.lastObserved, span.firstCollected, span.lastCollected, span.observations)
  }

  /** What the query reads, `WHERE first_observed_at <= :as_of`, of the first `n` rows. */
  function ReadTo(spans: seq<LedgerSpan>, n: nat, section: Section, asOf: Instant): seq<Span>
    requires n <= |spans|
  {
    if n == 0 then []
    else
      ReadTo(spans, n - 1, section, asOf)
      + if spans[n - 1].firstObserved <= asOf then [ForSection(spans[n - 1], section)] else []
  }

  function Read(subject: Subject, section: Section, asOf: Instant): seq<Span> {
    ReadTo(subject.spans, |subject.spans|, section, asOf)
  }

  datatype SubjectIntervals = SubjectIntervals(id: DeviceId, intervals: seq<Interval>)

  /** The rows the query returned for one subject and section, in the order it returned them. */
  type Query = (Subject, Section) -> seq<Island>

  type Departures = map<DeviceId, seq<Window>>

  function GoneOf(gone: Departures, id: DeviceId): seq<Window> {
    if id in gone then gone[id] else []
  }

  /** One subject's entry in the ledger: none where the query returned it no row. */
  function SubjectCover(
    subject: Subject, section: Section, query: Query, gone: Departures, from: Instant, asOf: Instant)
    : seq<SubjectIntervals>
  {
    var islands := query(subject, section);
    if islands == [] then [] else [SubjectIntervals(subject.id, CoverOf(islands, GoneOf(gone, subject.id), from, asOf))]
  }

  /** Each subject's entry, one after another. */
  function Entries(covers: seq<seq<SubjectIntervals>>, n: nat): seq<SubjectIntervals>
    requires n <= |covers|
  {
    if n == 0 then [] else Entries(covers, n - 1) + covers[n - 1]
  }

  function SubjectCovers(
    ledger: seq<Subject>, section: Section, query: Query, gone: Departures, from: Instant, asOf: Instant)
    : (covers: seq<seq<SubjectIntervals>>)
    ensures |covers| == |ledger|
  {
    seq(|ledger|, i requires 0 <= i < |ledger| => SubjectCover(ledger[i], section, query, gone, from, asOf))
  }

  function SectionLedger(
    ledger: seq<Subject>, section: Section, query: Query, gone: Departures, from: Instant, asOf: Instant)
    : seq<SubjectIntervals>
  {
    Entries(SubjectCovers(ledger, section, query, gone, from, asOf), |ledger|)
  }

  method CoverSubject(subject: Subject, section: Section, query: Query, gone: Departures, from: Instant, asOf: Instant)
    returns (cover: seq<SubjectIntervals>)
    ensures cover == SubjectCover(subject, section, query, gone, from, asOf)
  {
    var islands := query(subject, section);
    if islands == [] {
      return [];
    }
    var intervals := Cover(islands, GoneOf(gone, subject.id), from, asOf);
    cover := [SubjectIntervals(subject.id, intervals)];
  }

  method CoverSubjects(
    ledger: seq<Subject>, section: Section, query: Query, gone: Departures, from: Instant, asOf: Instant)
    returns (covers: seq<seq<SubjectIntervals>>)
    ensures covers == SubjectCovers(ledger, section, query, gone, from, asOf)
  {
    covers := [];
    for i := 0 to |ledger|
      invariant |covers| == i
      invariant forall j :: 0 <= j < i ==> covers[j] == SubjectCover(ledger[j], section, query, gone, from, asOf)
    {
      var cover := CoverSubject(ledger[i], section, query, gone, from, asOf);
      covers := covers + [cover];
    }
  }

  method Concatenate(covers: seq<seq<SubjectIntervals>>) returns (subjects: seq<SubjectIntervals>)
    ensures subjects == Entries(covers, |covers|)
  {
    subjects := [];
    for i := 0 to |covers|
      invariant subjects == Entries(covers, i)
    {
      subjects := subjects + covers[i];
    }
  }

  /** Every subject the ledger holds a span for at or below `as_of`, as a cover of the window. */
  method SectionIntervals(
    ledger: seq<Subject>, section: Section, query: Query, gone: Departures, from: Instant, asOf: Instant)
    returns (subjects: seq<SubjectIntervals>)
    ensures subjects == SectionLedger(ledger, section, query, gone, from, asOf)
  {
    var covers := CoverSubjects(ledger, section, query, gone, from, asOf);
    subjects := Concatenate(covers);
  }

  // --- the clock and the verdicts ----------------------------------------------------------

  /** The artefact's clock: an instant with its microseconds dropped, in whole seconds. */
  function Floor(t: Instant): int {
    t / SECOND
  }

  /** Floored boundaries, never a floored duration. */
  function Seconds(i: Interval): int {
    Floor(i.endsAt) - Floor(i.startsAt)
  }

  datatype Rule = Rule(id: RuleId, section: Section)

  /** The evaluator's answer for a rule over one stored document, by its digest. */
  type Judge = (RuleId, Digest) -> Verdict

  function VerdictOf(rule: Rule, interval: Interval, judge: Judge): Verdict {
    match interval.state
    case NotObserved => NoObservation
    case Departed => IsDeparted
    case Observed => if interval.digest.None? then NotReported else judge(rule.id, interval.digest.value)
  }

  function FloorOf(t: Option<Instant>): Option<int> {
    if t.None? then None else Some(Floor(t.value))
  }

  /** Whole seconds, cut towards zero; a gap of nothing is not printed. */
  function GapOf(gap: int): Option<int> {
    if gap == 0 then None else Some(if gap < 0 then -(-gap / SECOND) else gap / SECOND)
  }

  function SightingOf(interval: Interval): Option<Sighting> {
    if interval.state != Observed then None
    else
      Some(Sighting(interval.observations, FloorOf(interval.firstCollected), FloorOf(interval.lastCollected),
                    interval.digest))
  }

  function RowOf(rule: Rule, device: DeviceId, interval: Interval, judge: Judge): Row {
    Row(rule.id, device, VerdictOf(rule, interval, judge), Floor(interval.startsAt), Floor(interval.endsAt),
        Seconds(interval), GapOf(interval.longestGap), SightingOf(interval))
  }

  // --- the rows, in the order the loops print them -----------------------------------------

  /** The rules of one section, in catalogue order. */
  datatype SectionRules = SectionRules(section: Section, rules: seq<Rule>)

  function IntervalRows(rules: seq<Rule>, n: nat, device: DeviceId, interval: Interval, judge: Judge): seq<Row>
    requires n <= |rules|
  {
    if n == 0 then []
    else IntervalRows(rules, n - 1, device, interval, judge) + [RowOf(rules[n - 1], device, interval, judge)]
  }

  function SubjectRows(rules: seq<Rule>, device: DeviceId, intervals: seq<Interval>, n: nat, judge: Judge): seq<Row>
    requires n <= |intervals|
  {
    if n == 0 then []
    else
      SubjectRows(rules, device, intervals, n - 1, judge)
      + IntervalRows(rules, |rules|, device, intervals[n - 1], judge)
  }

  function SectionRows(rules: seq<Rule>, subjects: seq<SubjectIntervals>, n: nat, judge: Judge): seq<Row>
    requires n <= |subjects|
  {
    if n == 0 then []
    else
      SectionRows(rules, subjects, n - 1, judge)
      + SubjectRows(rules, subjects[n - 1].id, subjects[n - 1].intervals, |subjects[n - 1].intervals|, judge)
  }

  /** `ledgers[k]` is the k-th section's ledger. */
  function AllRows(sections: seq<SectionRules>, ledgers: seq<seq<SubjectIntervals>>, n: nat, judge: Judge): seq<Row>
    requires n <= |sections| == |ledgers|
  {
    if n == 0 then []
    else AllRows(sections, ledgers, n - 1, judge) + SectionRows(sections[n - 1].rules, ledgers[n - 1], |ledgers[n - 1]|, judge)
  }

  /** One query per section. */
  function Ledgers(
    sections: seq<SectionRules>, ledger: seq<Subject>, query: Query, gone: Departures, from: Instant, asOf: Instant)
    : seq<seq<SubjectIntervals>>
  {
    seq(|sections|, s requires 0 <= s < |sections| => SectionLedger(ledger, sections[s].section, query, gone, from, asOf))
  }

  /** Every row the report prints. */
  function ReportRows(
    rules: seq<Rule>, ledger: seq<Subject>, query: Query, gone: Departures, from: Instant, asOf: Instant,
    judge: Judge): seq<Row>
  {
    var sections := Grouped(rules, |rules|);
    AllRows(sections, Ledgers(sections, ledger, query, gone, from, asOf), |sections|, judge)
  }

  /** `by_section[rule.section].append(rule)`: each section once, where its first rule stands. */
  function Grouped(rules: seq<Rule>, n: nat): seq<SectionRules>
    requires n <= |rules|
  {
    if n == 0 then [] else Filed(Grouped(rules, n - 1), rules[n - 1])
  }

  function Filed(sections: seq<SectionRules>, rule: Rule): seq<SectionRules> {
    if sections == [] then [SectionRules(rule.section, [rule])]
    else if sections[0].section == rule.section then [sections[0].(rules := sections[0].rules + [rule])] + sections[1..]
    else [sections[0]] + Filed(sections[1..], rule)
  }

  method EvidenceReport(
    rules: seq<Rule>, ledger: seq<Subject>, query: Query, gone: Departures, from: Instant, asOf: Instant, judge: Judge)
    returns (rows: seq<Row>, byRule: map<RuleId, Totals>, byDevice: map<DeviceId, Totals>, fleet: Totals)
    ensures rows == ReportRows(rules, ledger, query, gone, from, asOf, judge)
    ensures byRule == PrintedTotals(SumsOf(rows).perRule) && AddsByRule(byRule, rows)
    ensures byDevice == PrintedTotals(SumsOf(rows).perDevice) && AddsByDevice(byDevice, rows)
    ensures fleet == TotalsOf(SumsOf(rows).fleet) && Adds(fleet, rows, Fleet)
  {
    var sections := Grouped(rules, |rules|);
    var ledgers := ReadSections(sections, ledger, query, gone, from, asOf);
    var sums := NOTHING;
    rows := [];
    for s := 0 to |sections|
      invariant rows == AllRows(sections, ledgers, s, judge) && sums == SumsOf(rows)
    {
      rows, sums := ReportSection(rows, sums, sections[s].rules, ledgers[s], judge);
    }
    PrintedAdds(rows);
    byRule, byDevice, fleet := PrintedTotals(sums.perRule), PrintedTotals(sums.perDevice), TotalsOf(sums.fleet);
  }

  method ReadSections(
    sections: seq<SectionRules>, ledger: seq<Subject>, query: Query, gone: Departures, from: Instant, asOf: Instant)
    returns (ledgers: seq<seq<SubjectIntervals>>)
    ensures ledgers == Ledgers(sections, ledger, query, gone, from, asOf)
  {
    ledgers := [];
    for s := 0 to |sections|
      invariant |ledgers| == s
      invariant forall r :: 0 <= r < s ==> ledgers[r] == SectionLedger(ledger, sections[r].section, query, gone, from, asOf)
    {
      var subjects := SectionIntervals(ledger, sections[s].section, query, gone, from, asOf);
      ledgers := ledgers + [subjects];
    }
  }

  method ReportSection(rows: seq<Row>, sums: Sums, rules: seq<Rule>, subjects: seq<SubjectIntervals>, judge: Judge)
    returns (rows': seq<Row>, sums': Sums)
    requires sums == SumsOf(rows)
    ensures rows' == rows + SectionRows(rules, subjects, |subjects|, judge) && sums' == SumsOf(rows')
  {
    rows', sums' := rows, sums;
    for d := 0 to |subjects|
      invariant rows' == rows + SectionRows(rules, subjects, d, judge) && sums' == SumsOf(rows')
    {
      rows', sums' := ReportSubject(rows', sums', rules, subjects[d].id, subjects[d].intervals, judge);
    }
  }

  method ReportSubject(
    rows: seq<Row>, sums: Sums, rules: seq<Rule>, device: DeviceId, intervals: seq<Interval>, judge: Judge)
    returns (rows': seq<Row>, sums': Sums)
    requires sums == SumsOf(rows)
    ensures rows' == rows + SubjectRows(rules, device, intervals, |intervals|, judge) && sums' == SumsOf(rows')
  {
    rows', sums' := rows, sums;
    for i := 0 to |intervals|
      invariant rows' == rows + SubjectRows(rules, device, intervals, i, judge) && sums' == SumsOf(rows')
    {
      rows', sums' := ReportInterval(rows', sums', rules, device, intervals[i], judge);
    }
  }

  method ReportInterval(
    rows: seq<Row>, sums: Sums, rules: seq<Rule>, device: DeviceId, interval: Interval, judge: Judge)
    returns (rows': seq<Row>, sums': Sums)
    requires sums == SumsOf(rows)
    ensures rows' == rows + IntervalRows(rules, |rules|, device, interval, judge) && sums' == SumsOf(rows')
  {
    rows', sums' := rows, sums;
    for r := 0 to |rules|
      invariant rows' == rows + IntervalRows(rules, r, device, interval, judge) && sums' == SumsOf(rows')
    {
      var row := RowOf(rules[r], device, interval, judge);
      SumsOfMore(rows', row, |rows'|);
      rows', sums' := rows' + [row], sums'.Record(row);
    }
  }
}
