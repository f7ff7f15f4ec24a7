/** What the report's rows are: one for every rule of the catalogue and every interval of the rule's own
    section, under the device the interval is of, with the answer that interval calls for. */
module RowFacts {
  import opened Prelude
  import opened Intervals
  import opened Tallies
  import opened Report

  /** What a report is asked for. */
  datatype Asked = Asked(
    rules: seq<Rule>, ledger: seq<Subject>, query: Query, gone: Departures, from: Instant, asOf: Instant, judge: Judge)

  /** A rule of the catalogue, a subject of the ledger, and one of its intervals. */
  datatype Place = Place(rule: nat, subject: nat, interval: nat)

  /** A subject's intervals of one section: its cover, or none where the query returned no row. */
  function IntervalsAt(asked: Asked, subject: nat, section: Section): seq<Interval>
    requires subject < |asked.ledger|
  {
    var rows := asked.query(asked.ledger[subject], section);
    if rows == [] then [] else CoverOf(rows, GoneOf(asked.gone, asked.ledger[subject].id), asked.from, asked.asOf)
  }

  predicate IsPlace(asked: Asked, p: Place) {
    && p.rule < |asked.rules| && p.subject < |asked.ledger|
    && p.interval < |IntervalsAt(asked, p.subject, asked.rules[p.rule].section)|
  }

  /** The whole second an instant is in. */
  predicate InSecond(second: int, t: Instant) {
    second * SECOND <= t < (second + 1) * SECOND
  }

  /** The one state an interval calls for under a rule. */
  predicate IsAnswer(state: Verdict, rule: RuleId, interval: Interval, judge: Judge) {
    && (interval.state == Departed ==> state == IsDeparted)
    && (interval.state == NotObserved ==> state == NoObservation)
    && (interval.state == Observed && interval.digest == None ==> state == NotReported)
    && (interval.state == Observed && interval.digest.Some? ==> state == judge(rule, interval.digest.value))
  }

  /** A row of the table as the query reads it for one section. */
  predicate IsReadAs(span: Span, row: LedgerSpan, section: Section) {
    && (span.digest == None <==> section !in row.sectionDigests)
    && (span.digest.Some? ==> span.digest.value == row.sectionDigests[section])
    && span.firstObserved == row.firstObserved && span.lastObserved == row.lastObserved
    && span.firstCollected == row.firstCollected && span.lastCollected == row.lastCollected
    && span.observations == row.observations
  }

  /** The query reads, in order, exactly the rows first observed by `as_of`, whatever they hold of the
      section: `places` says which. */
  lemma {:induction false} RowsAreRead(rows: seq<LedgerSpan>, n: nat, section: Section, asOf: Instant)
    returns (places: seq<nat>)
    requires n <= |rows|
    ensures |places| == |ReadTo(rows, n, section, asOf)|
    ensures forall k :: 0 <= k < |places| ==>
              places[k] < n && IsReadAs(ReadTo(rows, n, section, asOf)[k], rows[places[k]], section)
    ensures forall k, l :: 0 <= k < l < |places| ==> places[k] < places[l]
    ensures forall i: nat :: i < n ==> (i in places <==> rows[i].firstObserved <= asOf)
  {
    places := [];
    if n > 0 {
      places := RowsAreRead(rows, n - 1, section, asOf);
      if rows[n - 1].firstObserved <= asOf {
        places := places + [n - 1];
      }
    }
  }

  /** The page's reading of an interval's longest gap: nothing for none, else its whole seconds. */
  predicate IsGap(printed: Option<int>, gap: int) {
    && (printed == None <==> gap == 0)
    && (printed.Some? && gap > 0 ==> printed.value * SECOND <= gap < (printed.value + 1) * SECOND)
  }

  predicate IsClock(printed: Option<int>, at: Option<Instant>) {
    && (printed.Some? <==> at.Some?)
    && (printed.Some? ==> InSecond(printed.value, at.value))
  }

  /** An observed interval's row says how often it was seen, when that was collected, and its digest. */
  predicate IsSighting(printed: Option<Sighting>, interval: Interval) {
    && (printed.Some? <==> interval.state == Observed)
    && (printed.Some? ==>
          && printed.value.observations == interval.observations && printed.value.digest == interval.digest
          && IsClock(printed.value.collectedFrom, interval.firstCollected)
          && IsClock(printed.value.collectedTo, interval.lastCollected))
  }

  predicate Answers(row: Row, asked: Asked, p: Place)
    requires IsPlace(asked, p)
  {
    var rule := asked.rules[p.rule];
    var interval := IntervalsAt(asked, p.subject, rule.section)[p.interval];
    && row.rule == rule.id && row.device == asked.ledger[p.subject].id
    && IsAnswer(row.state, rule.id, interval, asked.judge)
    && InSecond(row.from, interval.startsAt) && InSecond(row.to, interval.endsAt) && row.seconds == row.to - row.from
    && IsGap(row.longestGap, interval.longestGap) && IsSighting(row.sighting, interval)
  }

  /** Row by row the answers at these places. */
  ghost predicate Matched(rows: seq<Row>, asked: Asked, places: seq<Place>) {
    |rows| == |places| && forall k :: 0 <= k < |rows| ==> IsPlace(asked, places[k]) && Answers(rows[k], asked, places[k])
  }

  lemma {:induction false} MatchedJoin(
    asked: Asked, left: seq<Row>, first: seq<Place>, right: seq<Row>, second: seq<Place>)
    requires Matched(left, asked, first) && Matched(right, asked, second)
    ensures Matched(left + right, asked, first + second)
  {
    var rows, places := left + right, first + second;
    forall k | 0 <= k < |rows| ensures IsPlace(asked, places[k]) && Answers(rows[k], asked, places[k]) {
      if k < |left| {
        assert rows[k] == left[k] && places[k] == first[k];
      } else {
        assert rows[k] == right[k - |left|] && places[k] == second[k - |left|];
      }
    }
  }

  /** How often a place is listed. */
  function Times(places: seq<Place>, p: Place): nat {
    if places == [] then 0
    else Times(places[..|places| - 1], p) + if places[|places| - 1] == p then 1 else 0
  }

  lemma {:induction false} TimesJoin(first: seq<Place>, second: seq<Place>, p: Place)
    ensures Times(first + second, p) == Times(first, p) + Times(second, p)
  {
    if second == [] {
      assert first + second == first;
    } else {
      var fewer := second[..|second| - 1];
      assert (first + second)[..|first + second| - 1] == first + fewer;
      TimesJoin(first, fewer, p);
    }
  }

  // --- one interval --------------------------------------------------------------------------

  /** These are the catalogue's rules at these places. */
  predicate Stand(asked: Asked, rules: seq<Rule>, at: seq<nat>, section: Section) {
    && |at| == |rules|
    && (forall r :: 0 <= r < |at| ==> at[r] < |asked.rules| && asked.rules[at[r]] == rules[r] && rules[r].section == section)
  }

  predicate Distinct<T(==)>(items: seq<T>) {
    forall i, j :: 0 <= i < j < |items| ==> items[i] != items[j]
  }

  predicate Among<T(==)>(items: seq<T>, n: nat, x: T)
    requires n <= |items|
  {
    n > 0 && (items[n - 1] == x || Among(items, n - 1, x))
  }

  lemma {:induction false} AmongIsIn<T>(items: seq<T>, n: nat, x: T)
    requires n <= |items|
    ensures Among(items, n, x) <==> exists i :: 0 <= i < n && items[i] == x
  {
    if n > 0 {
      AmongIsIn(items, n - 1, x);
    }
  }

  lemma {:induction false} LastIsNew<T>(items: seq<T>, n: nat)
    requires 0 < n <= |items| && Distinct(items)
    ensures !Among(items, n - 1, items[n - 1])
  {
    AmongIsIn(items, n - 1, items[n - 1]);
  }

  function IntervalPlaces(at: seq<nat>, n: nat, subject: nat, interval: nat): seq<Place>
    requires n <= |at|
  {
    if n == 0 then [] else IntervalPlaces(at, n - 1, subject, interval) + [Place(at[n - 1], subject, interval)]
  }

  lemma {:induction false} RowAnswers(asked: Asked, p: Place)
    requires IsPlace(asked, p)
    ensures var rule := asked.rules[p.rule];
            var interval := IntervalsAt(asked, p.subject, rule.section)[p.interval];
            Answers(RowOf(rule, asked.ledger[p.subject].id, interval, asked.judge), asked, p)
  {
  }

  lemma {:induction false} IntervalMatched(
    asked: Asked, rules: seq<Rule>, at: seq<nat>, section: Section, n: nat, subject: nat, i: nat)
    requires n <= |rules| && Stand(asked, rules, at, section)
    requires subject < |asked.ledger| && i < |IntervalsAt(asked, subject, section)|
    ensures Matched(
              IntervalRows(rules, n, asked.ledger[subject].id, IntervalsAt(asked, subject, section)[i], asked.judge),
              asked, IntervalPlaces(at, n, subject, i))
  {
    if n > 0 {
      var device, interval := asked.ledger[subject].id, IntervalsAt(asked, subject, section)[i];
      var p := Place(at[n - 1], subject, i);
      IntervalMatched(asked, rules, at, section, n - 1, subject, i);
      RowAnswers(asked, p);
      MatchedJoin(asked, IntervalRows(rules, n - 1, device, interval, asked.judge), IntervalPlaces(at, n - 1, subject, i),
                  [RowOf(rules[n - 1], device, interval, asked.judge)], [p]);
    }
  }

  lemma {:induction false} IntervalCount(at: seq<nat>, n: nat, subject: nat, interval: nat, p: Place)
    requires n <= |at| && Distinct(at)
    ensures Times(IntervalPlaces(at, n, subject, interval), p)
         == if p.subject == subject && p.interval == interval && Among(at, n, p.rule) then 1 else 0
  {
    if n > 0 {
      IntervalCount(at, n - 1, subject, interval, p);
      TimesJoin(IntervalPlaces(at, n - 1, subject, interval), [Place(at[n - 1], subject, interval)], p);
      LastIsNew(at, n);
    }
  }

  // --- one subject ---------------------------------------------------------------------------

  function SubjectPlaces(at: seq<nat>, subject: nat, n: nat): seq<Place> {
    if n == 0 then [] else SubjectPlaces(at, subject, n - 1) + IntervalPlaces(at, |at|, subject, n - 1)
  }

  lemma {:induction false} SubjectMatched(
    asked: Asked, rules: seq<Rule>, at: seq<nat>, section: Section, subject: nat, n: nat)
    requires Stand(asked, rules, at, section)
    requires subject < |asked.ledger| && n <= |IntervalsAt(asked, subject, section)|
    ensures Matched(
              SubjectRows(rules, asked.ledger[subject].id, IntervalsAt(asked, subject, section), n, asked.judge),
              asked, SubjectPlaces(at, subject, n))
  {
    if n > 0 {
      var device, intervals := asked.ledger[subject].id, IntervalsAt(asked, subject, section);
      SubjectMatched(asked, rules, at, section, subject, n - 1);
      IntervalMatched(asked, rules, at, section, |rules|, subject, n - 1);
      MatchedJoin(asked, SubjectRows(rules, device, intervals, n - 1, asked.judge), SubjectPlaces(at, subject, n - 1),
                  IntervalRows(rules, |rules|, device, intervals[n - 1], asked.judge),
                  IntervalPlaces(at, |at|, subject, n - 1));
    }
  }

  lemma {:induction false} SubjectCount(at: seq<nat>, subject: nat, n: nat, p: Place)
    requires Distinct(at)
    ensures Times(SubjectPlaces(at, subject, n), p)
         == if p.subject == subject && p.interval < n && p.rule in at then 1 else 0
  {
    if n > 0 {
      SubjectCount(at, subject, n - 1, p);
      IntervalCount(at, |at|, subject, n - 1, p);
      TimesJoin(SubjectPlaces(at, subject, n - 1), IntervalPlaces(at, |at|, subject, n - 1), p);
      AmongIsIn(at, |at|, p.rule);
    }
  }

  // --- one section ---------------------------------------------------------------------------

  /** The subjects the query returned rows of a section for, among the first `n`. */
  function Returned(asked: Asked, section: Section, n: nat): (subjects: seq<nat>)
    requires n <= |asked.ledger|
    ensures forall d :: 0 <= d < |subjects| ==> subjects[d] < n
    ensures Distinct(subjects)
  {
    if n == 0 then []
    else Returned(asked, section, n - 1) + if asked.query(asked.ledger[n - 1], section) == [] then [] else [n - 1]
  }

  predicate AreSubjects(asked: Asked, subjects: seq<nat>) {
    forall d :: 0 <= d < |subjects| ==> subjects[d] < |asked.ledger|
  }

  function SectionPlaces(asked: Asked, at: seq<nat>, section: Section, subjects: seq<nat>, n: nat): seq<Place>
    requires n <= |subjects| && AreSubjects(asked, subjects)
  {
    if n == 0 then []
    else
      SectionPlaces(asked, at, section, subjects, n - 1)
      + SubjectPlaces(at, subjects[n - 1], |IntervalsAt(asked, subjects[n - 1], section)|)
  }

  function LedgerOf(asked: Asked, section: Section): seq<SubjectIntervals> {
    SectionLedger(asked.ledger, section, asked.query, asked.gone, asked.from, asked.asOf)
  }

  /** A section's ledger holds the intervals of those subjects. */
  lemma {:induction false} LedgerHolds(asked: Asked, section: Section, n: nat)
    requires n <= |asked.ledger|
    ensures var covers := SubjectCovers(asked.ledger, section, asked.query, asked.gone, asked.from, asked.asOf);
            var (entries, subjects) := (Entries(covers, n), Returned(asked, section, n));
            |entries| == |subjects| && forall d :: 0 <= d < |entries| ==>
              entries[d] == SubjectIntervals(asked.ledger[subjects[d]].id, IntervalsAt(asked, subjects[d], section))
  {
    if n > 0 {
      LedgerHolds(asked, section, n - 1);
    }
  }

  /** The ledger holds these subjects' intervals of the section. */
  predicate AreEntries(asked: Asked, section: Section, ledger: seq<SubjectIntervals>, subjects: seq<nat>) {
    && |ledger| == |subjects| && AreSubjects(asked, subjects)
    && forall d :: 0 <= d < |ledger| ==>
         ledger[d] == SubjectIntervals(asked.ledger[subjects[d]].id, IntervalsAt(asked, subjects[d], section))
  }

  lemma {:induction false} NextMatched(
    asked: Asked, rules: seq<Rule>, at: seq<nat>, section: Section, subject: nat, entry: SubjectIntervals,
    rows: seq<Row>, places: seq<Place>)
    requires Stand(asked, rules, at, section) && subject < |asked.ledger|
    requires entry == SubjectIntervals(asked.ledger[subject].id, IntervalsAt(asked, subject, section))
    requires Matched(rows, asked, places)
    ensures Matched(rows + SubjectRows(rules, entry.id, entry.intervals, |entry.intervals|, asked.judge), asked,
                    places + SubjectPlaces(at, subject, |entry.intervals|))
  {
    SubjectMatched(asked, rules, at, section, subject, |entry.intervals|);
    MatchedJoin(asked, rows, places, SubjectRows(rules, entry.id, entry.intervals, |entry.intervals|, asked.judge),
                SubjectPlaces(at, subject, |entry.intervals|));
  }

  lemma {:induction false} SectionMatched(
    asked: Asked, rules: seq<Rule>, at: seq<nat>, section: Section, ledger: seq<SubjectIntervals>, subjects: seq<nat>,
    n: nat)
    requires Stand(asked, rules, at, section) && AreEntries(asked, section, ledger, subjects) && n <= |ledger|
    ensures Matched(SectionRows(rules, ledger, n, asked.judge), asked, SectionPlaces(asked, at, section, subjects, n))
  {
    if n > 0 {
      SectionMatched(asked, rules, at, section, ledger, subjects, n - 1);
      NextMatched(asked, rules, at, section, subjects[n - 1], ledger[n - 1],
                  SectionRows(rules, ledger, n - 1, asked.judge), SectionPlaces(asked, at, section, subjects, n - 1));
    }
  }

  lemma {:induction false} ReturnedIs(asked: Asked, section: Section, n: nat, subject: nat)
    requires n <= |asked.ledger|
    ensures subject in Returned(asked, section, n)
       <==> subject < n && asked.query(asked.ledger[subject], section) != []
  {
    if n > 0 {
      ReturnedIs(asked, section, n - 1, subject);
    }
  }

  lemma {:induction false} SectionCount(
    asked: Asked, at: seq<nat>, section: Section, subjects: seq<nat>, n: nat, p: Place, isHere: bool)
    requires Distinct(at) && Distinct(subjects) && AreSubjects(asked, subjects) && n <= |subjects|
    requires p.subject < |asked.ledger| ==>
               (isHere <==> p.rule in at && p.interval < |IntervalsAt(asked, p.subject, section)|)
    ensures Times(SectionPlaces(asked, at, section, subjects, n), p)
         == if isHere && Among(subjects, n, p.subject) then 1 else 0
  {
    if n > 0 {
      SectionCount(asked, at, section, subjects, n - 1, p, isHere);
      var here := SubjectPlaces(at, subjects[n - 1], |IntervalsAt(asked, subjects[n - 1], section)|);
      assert Times(here, p) == if isHere && p.subject == subjects[n - 1] then 1 else 0 by {
        SubjectCount(at, subjects[n - 1], |IntervalsAt(asked, subjects[n - 1], section)|, p);
      }
      LastIsNew(subjects, n);
      TimesJoin(SectionPlaces(asked, at, section, subjects, n - 1), here, p);
    }
  }

  /** Every interval of the section, under every rule, once. */
  lemma {:induction false} WholeSectionCount(asked: Asked, at: seq<nat>, section: Section, subjects: seq<nat>, p: Place)
    requires Distinct(at) && subjects == Returned(asked, section, |asked.ledger|)
    ensures Times(SectionPlaces(asked, at, section, subjects, |subjects|), p)
         == if p.subject < |asked.ledger| && p.interval < |IntervalsAt(asked, p.subject, section)| && p.rule in at
            then 1 else 0
  {
    var isHere := p.subject < |asked.ledger| && p.rule in at && p.interval < |IntervalsAt(asked, p.subject, section)|;
    SectionCount(asked, at, section, subjects, |subjects|, p, isHere);
    ReturnedIs(asked, section, |asked.ledger|, p.subject);
    AmongIsIn(subjects, |subjects|, p.subject);
  }

  // --- the sections --------------------------------------------------------------------------

  function Names(sections: seq<SectionRules>): seq<Section> {
    if sections == [] then [] else [sections[0].section] + Names(sections[1..])
  }

  /** The rules filed under a name. */
  function Under(sections: seq<SectionRules>, name: Section): seq<Rule> {
    if sections == [] then [] else if sections[0].section == name then sections[0].rules else Under(sections[1..], name)
  }

  lemma {:induction false} FiledUnder(sections: seq<SectionRules>, rule: Rule, name: Section)
    ensures Under(Filed(sections, rule), name)
         == Under(sections, name) + if rule.section == name then [rule] else []
    ensures Names(Filed(sections, rule))
         == if rule.section in Names(sections) then Names(sections) else Names(sections) + [rule.section]
    ensures rule.section !in Names(sections) ==> Under(sections, rule.section) == []
  {
    var filed := Filed(sections, rule);
    if sections != [] {
      if sections[0].section == rule.section {
        assert filed[1..] == sections[1..];
      } else {
        FiledUnder(sections[1..], rule, name);
        assert filed[1..] == Filed(sections[1..], rule);
      }
    }
  }

  lemma {:induction false} SectionIsUnder(sections: seq<SectionRules>, s: nat)
    requires s < |sections|
    ensures |Names(sections)| == |sections| && Names(sections)[s] == sections[s].section
    ensures Distinct(Names(sections)) ==> sections[s].rules == Under(sections, sections[s].section)
  {
    if s > 0 {
      SectionIsUnder(sections[1..], s - 1);
      if Distinct(Names(sections)) {
        assert forall i :: 0 <= i < |Names(sections[1..])| ==> Names(sections[1..])[i] == Names(sections)[i + 1];
        assert Names(sections)[0] != Names(sections)[s];
      }
    } else {
      NamesLength(sections);
    }
  }

  lemma {:induction false} NamesLength(sections: seq<SectionRules>)
    ensures |Names(sections)| == |sections|
  {
    if sections != [] {
      NamesLength(sections[1..]);
    }
  }

  /** Where the rules of a section stand among the first `n`. */
  function PlacesIn(rules: seq<Rule>, n: nat, section: Section): (at: seq<nat>)
    requires n <= |rules|
    ensures forall r :: 0 <= r < |at| ==> at[r] < n && rules[at[r]].section == section
    ensures forall i :: 0 <= i < n && rules[i].section == section ==> i in at
    ensures Distinct(at)
  {
    if n == 0 then [] else PlacesIn(rules, n - 1, section) + if rules[n - 1].section == section then [n - 1] else []
  }

  /** These rules are the catalogue's at these places. */
  predicate ArePicked(under: seq<Rule>, rules: seq<Rule>, at: seq<nat>) {
    |under| == |at| && forall r :: 0 <= r < |at| ==> at[r] < |rules| && under[r] == rules[at[r]]
  }

  lemma {:induction false} PickedOneMore(under: seq<Rule>, rules: seq<Rule>, at: seq<nat>, i: nat)
    requires ArePicked(under, rules, at) && i < |rules|
    ensures ArePicked(under + [rules[i]], rules, at + [i])
  {
  }

  lemma {:induction false} NamesOneMore(names: seq<Section>, section: Section, more: seq<Section>)
    requires Distinct(names) && more == if section in names then names else names + [section]
    ensures Distinct(more)
  {
  }

  /** The sections are distinct... */
  lemma {:induction false} NamesAreDistinct(rules: seq<Rule>, n: nat)
    requires n <= |rules|
    ensures Distinct(Names(Grouped(rules, n)))
  {
    if n > 0 {
      var sections := Grouped(rules, n - 1);
      NamesAreDistinct(rules, n - 1);
      FiledUnder(sections, rules[n - 1], "");
      NamesOneMore(Names(sections), rules[n - 1].section, Names(Filed(sections, rules[n - 1])));
    }
  }

  /** ...and every rule's is among them. */
  lemma {:induction false} SectionIsNamed(rules: seq<Rule>, n: nat, i: nat)
    requires i < n <= |rules|
    ensures rules[i].section in Names(Grouped(rules, n))
  {
    FiledUnder(Grouped(rules, n - 1), rules[n - 1], "");
    if i < n - 1 {
      SectionIsNamed(rules, n - 1, i);
    }
  }

  /** And each holds its rules, in order. */
  lemma {:induction false} GroupedIs(rules: seq<Rule>, n: nat, name: Section)
    requires n <= |rules|
    ensures ArePicked(Under(Grouped(rules, n), name), rules, PlacesIn(rules, n, name))
  {
    if n > 0 {
      GroupedIs(rules, n - 1, name);
      FiledUnder(Grouped(rules, n - 1), rules[n - 1], name);
      PickedOneMore(Under(Grouped(rules, n - 1), name), rules, PlacesIn(rules, n - 1, name), n - 1);
    }
  }

  lemma {:induction false} SectionStands(asked: Asked, s: nat)
    requires s < |Grouped(asked.rules, |asked.rules|)|
    ensures var section := Grouped(asked.rules, |asked.rules|)[s];
            Stand(asked, section.rules, PlacesIn(asked.rules, |asked.rules|, section.section), section.section)
  {
    var sections := Grouped(asked.rules, |asked.rules|);
    NamesAreDistinct(asked.rules, |asked.rules|);
    GroupedIs(asked.rules, |asked.rules|, sections[s].section);
    SectionIsUnder(sections, s);
  }

  // --- the whole report ----------------------------------------------------------------------

  /** The places of one section. */
  function PlacesOf(asked: Asked, section: Section): seq<Place> {
    var subjects := Returned(asked, section, |asked.ledger|);
    SectionPlaces(asked, PlacesIn(asked.rules, |asked.rules|, section), section, subjects, |subjects|)
  }

  function AllPlaces(asked: Asked, names: seq<Section>, n: nat): seq<Place>
    requires n <= |names|
  {
    if n == 0 then [] else AllPlaces(asked, names, n - 1) + PlacesOf(asked, names[n - 1])
  }

  lemma {:induction false} LedgerMatched(asked: Asked, section: SectionRules, ledger: seq<SubjectIntervals>)
    requires Stand(asked, section.rules, PlacesIn(asked.rules, |asked.rules|, section.section), section.section)
    requires ledger == LedgerOf(asked, section.section)
    ensures Matched(SectionRows(section.rules, ledger, |ledger|, asked.judge), asked, PlacesOf(asked, section.section))
  {
    LedgerHolds(asked, section.section, |asked.ledger|);
    SectionMatched(asked, section.rules, PlacesIn(asked.rules, |asked.rules|, section.section), section.section, ledger,
                   Returned(asked, section.section, |asked.ledger|), |ledger|);
  }

  lemma {:induction false} NextLedger(
    asked: Asked, s: nat, section: SectionRules, ledger: seq<SubjectIntervals>, rows: seq<Row>, places: seq<Place>)
    requires s < |Grouped(asked.rules, |asked.rules|)| && section == Grouped(asked.rules, |asked.rules|)[s]
    requires ledger == LedgerOf(asked, section.section) && Matched(rows, asked, places)
    ensures Matched(rows + SectionRows(section.rules, ledger, |ledger|, asked.judge), asked,
                    places + PlacesOf(asked, section.section))
  {
    SectionStands(asked, s);
    LedgerMatched(asked, section, ledger);
    MatchedJoin(asked, rows, places, SectionRows(section.rules, ledger, |ledger|, asked.judge),
                PlacesOf(asked, section.section));
  }

  lemma {:induction false} AllMatched(
    asked: Asked, sections: seq<SectionRules>, ledgers: seq<seq<SubjectIntervals>>, names: seq<Section>, n: nat)
    requires sections == Grouped(asked.rules, |asked.rules|) && names == Names(sections)
    requires n <= |sections| == |names|
    requires ledgers == Ledgers(sections, asked.ledger, asked.query, asked.gone, asked.from, asked.asOf)
    ensures Matched(AllRows(sections, ledgers, n, asked.judge), asked, AllPlaces(asked, names, n))
  {
    if n > 0 {
      AllMatched(asked, sections, ledgers, names, n - 1);
      SectionIsUnder(sections, n - 1);
      NextLedger(asked, n - 1, sections[n - 1], ledgers[n - 1],
                 AllRows(sections, ledgers, n - 1, asked.judge), AllPlaces(asked, names, n - 1));
    }
  }

  lemma {:induction false} SectionPlacesCount(asked: Asked, section: Section, p: Place)
    ensures Times(PlacesOf(asked, section), p)
         == if IsPlace(asked, p) && asked.rules[p.rule].section == section then 1 else 0
  {
    WholeSectionCount(asked, PlacesIn(asked.rules, |asked.rules|, section), section,
                      Returned(asked, section, |asked.ledger|), p);
  }

  lemma {:induction false} AllCount(
    asked: Asked, names: seq<Section>, n: nat, p: Place, isPlace: bool, section: Section)
    requires Distinct(names) && n <= |names| && isPlace == IsPlace(asked, p)
    requires isPlace ==> asked.rules[p.rule].section == section
    ensures Times(AllPlaces(asked, names, n), p) == if isPlace && Among(names, n, section) then 1 else 0
  {
    if n > 0 {
      var earlier, here := AllPlaces(asked, names, n - 1), PlacesOf(asked, names[n - 1]);
      AllCount(asked, names, n - 1, p, isPlace, section);
      assert Times(here, p) == if isPlace && section == names[n - 1] then 1 else 0 by {
        SectionPlacesCount(asked, names[n - 1], p);
      }
      TimesJoin(earlier, here, p);
      LastIsNew(names, n);
    }
  }

  /** The report's rows are exactly the answers at every place: each rule of the catalogue over each
      interval its own section has for each subject, once, and no other row. */
  lemma {:induction false} RowsAreAnswers(asked: Asked) returns (places: seq<Place>)
    ensures Matched(ReportRows(asked.rules, asked.ledger, asked.query, asked.gone, asked.from, asked.asOf, asked.judge),
                    asked, places)
    ensures forall p :: Times(places, p) == if IsPlace(asked, p) then 1 else 0
  {
    var sections := Grouped(asked.rules, |asked.rules|);
    var ledgers := Ledgers(sections, asked.ledger, asked.query, asked.gone, asked.from, asked.asOf);
    var names := Names(sections);
    NamesLength(sections);
    places := AllPlaces(asked, names, |names|);
    AllMatched(asked, sections, ledgers, names, |sections|);
    NamesAreDistinct(asked.rules, |asked.rules|);
    forall p ensures Times(places, p) == if IsPlace(asked, p) then 1 else 0 {
      if IsPlace(asked, p) {
        AllCount(asked, names, |names|, p, true, asked.rules[p.rule].section);
        SectionIsNamed(asked.rules, |asked.rules|, p.rule);
        AmongIsIn(names, |names|, asked.rules[p.rule].section);
      } else {
        AllCount(asked, names, |names|, p, false, "");
      }
    }
  }
}
