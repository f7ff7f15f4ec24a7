/** What the report's loops add up: rows folded into a tally per rule, per device and over the fleet, and
    the figures printed of each. */
module Tallies {
  import opened Prelude
  import opened Intervals

  type RuleId = string
  type DeviceId = string

  /** `met` and `unmet`, and the three ways of having no answer. */
  datatype Verdict = Met | Unmet | NotReported | NoObservation | IsDeparted

  /** What an observed interval's row cites. */
  datatype Sighting = Sighting(
    observations: nat, collectedFrom: Option<int>, collectedTo: Option<int>, digest: Option<Digest>)

  datatype Row = Row(
    rule: RuleId, device: DeviceId, state: Verdict, from: int, to: int, seconds: int, longestGap: Option<int>,
    sighting: Option<Sighting>)

  // --- the accumulation --------------------------------------------------------------------

  /** The buckets a row is folded into, and the finest one the sum is claimed for. */
  datatype Bucket = Fleet | OfRule(rule: RuleId) | OfDevice(device: DeviceId) | OfPair(rule: RuleId, device: DeviceId)
  {
    predicate Keeps(rule: RuleId, device: DeviceId) {
      match this
      case Fleet => true
      case OfRule(r) => r == rule
      case OfDevice(d) => d == device
      case OfPair(r, d) => r == rule && d == device
    }
  }

  /** A `defaultdict(float)` by state: what was never added to is zero. */
  datatype Tally = Tally(met: int, unmet: int, notReported: int, noObservation: int, departed: int) {
    function Add(state: Verdict, seconds: int): Tally {
      match state
      case Met => this.(met := met + seconds)
      case Unmet => this.(unmet := unmet + seconds)
      case NotReported => this.(notReported := notReported + seconds)
      case NoObservation => this.(noObservation := noObservation + seconds)
      case IsDeparted => this.(departed := departed + seconds)
    }
  }

  const EMPTY: Tally := Tally(0, 0, 0, 0, 0)

  const UNANSWERED := {NotReported, NoObservation, IsDeparted}

  /** The printed figures: the composites are sums of the printed parts, and a part of nothing is not
      printed. */
  datatype Totals = Totals(met: int, unmet: int, notObserved: int, parts: map<Verdict, int>, window: int)

  function Component(tally: Tally, state: Verdict): int {
    match state
    case Met => tally.met
    case Unmet => tally.unmet
    case NotReported => tally.notReported
    case NoObservation => tally.noObservation
    case IsDeparted => tally.departed
  }

  function TotalsOf(tally: Tally): Totals {
    var unanswered := tally.notReported + tally.noObservation + tally.departed;
    var parts := map state | state in UNANSWERED && Component(tally, state) != 0 :: Component(tally, state);
    Totals(tally.met, tally.unmet, unanswered, parts, tally.met + tally.unmet + unanswered)
  }

  function AddTo(tallies: map<string, Tally>, id: string, row: Row): map<string, Tally> {
    tallies[id := (if id in tallies then tallies[id] else EMPTY).Add(row.state, row.seconds)]
  }

  /** The three dictionaries the loops add to. */
  datatype Sums = Sums(perRule: map<RuleId, Tally>, perDevice: map<DeviceId, Tally>, fleet: Tally) {
    function Record(row: Row): Sums {
      Sums(AddTo(perRule, row.rule, row), AddTo(perDevice, row.device, row), fleet.Add(row.state, row.seconds))
    }
  }

  const NOTHING: Sums := Sums(map[], map[], EMPTY)

  /** The dictionaries after the first `n` rows. */
  function SumsTo(rows: seq<Row>, n: nat): Sums
    requires n <= |rows|
  {
    if n == 0 then NOTHING else SumsTo(rows, n - 1).Record(rows[n - 1])
  }

  function SumsOf(rows: seq<Row>): Sums {
    SumsTo(rows, |rows|)
  }

  lemma {:induction false} SumsOfMore(rows: seq<Row>, row: Row, n: nat)
    requires n <= |rows|
    ensures SumsTo(rows + [row], n) == SumsTo(rows, n)
    ensures n == |rows| ==> SumsOf(rows + [row]) == SumsOf(rows).Record(row)
  {
    if n > 0 {
      SumsOfMore(rows, row, n - 1);
    }
  }

  function PrintedTotals(tallies: map<string, Tally>): map<string, Totals> {
    map id | id in tallies :: TotalsOf(tallies[id])
  }

  // --- what the dictionaries hold -----------------------------------------------------------

  function ComponentAt(tallies: map<string, Tally>, id: string, state: Verdict): int {
    if id in tallies then Component(tallies[id], state) else 0
  }

  /** The seconds of the kept rows in one state. */
  function InStateTo(rows: seq<Row>, n: nat, bucket: Bucket, state: Verdict): int
    requires n <= |rows|
  {
    if n == 0 then 0
    else
      InStateTo(rows, n - 1, bucket, state)
      + if bucket.Keeps(rows[n - 1].rule, rows[n - 1].device) && rows[n - 1].state == state then rows[n - 1].seconds else 0
  }

  lemma {:induction false} AddToState(tallies: map<string, Tally>, to: string, row: Row, id: string, state: Verdict)
    ensures ComponentAt(AddTo(tallies, to, row), id, state)
            == ComponentAt(tallies, id, state) + if id == to && row.state == state then row.seconds else 0
  {
  }

  /** No second is ever counted under another state's name, in any of the three dictionaries. */
  lemma {:induction false} StatesAreKept(rows: seq<Row>, n: nat, id: string, state: Verdict)
    requires n <= |rows|
    ensures Component(SumsTo(rows, n).fleet, state) == InStateTo(rows, n, Fleet, state)
    ensures ComponentAt(SumsTo(rows, n).perRule, id, state) == InStateTo(rows, n, OfRule(id), state)
    ensures ComponentAt(SumsTo(rows, n).perDevice, id, state) == InStateTo(rows, n, OfDevice(id), state)
  {
    if n > 0 {
      var row := rows[n - 1];
      StatesAreKept(rows, n - 1, id, state);
      AddToState(SumsTo(rows, n - 1).perRule, row.rule, row, id, state);
      AddToState(SumsTo(rows, n - 1).perDevice, row.device, row, id, state);
    }
  }

  predicate HasRule(rows: seq<Row>, n: nat, id: RuleId)
    requires n <= |rows|
  {
    exists i :: 0 <= i < n && rows[i].rule == id
  }

  predicate HasDevice(rows: seq<Row>, n: nat, id: DeviceId)
    requires n <= |rows|
  {
    exists i :: 0 <= i < n && rows[i].device == id
  }

  lemma {:induction false} BucketsAreKept(rows: seq<Row>, n: nat, id: string)
    requires n <= |rows|
    ensures id in SumsTo(rows, n).perRule <==> HasRule(rows, n, id)
    ensures id in SumsTo(rows, n).perDevice <==> HasDevice(rows, n, id)
  {
    if n > 0 {
      BucketsAreKept(rows, n - 1, id);
    }
  }

  // --- the printed figures ------------------------------------------------------------------

  /** The figures are the seconds of the rows a bucket keeps, by what they assert of a Mac. */
  ghost predicate Adds(totals: Totals, rows: seq<Row>, bucket: Bucket) {
    && totals.met == InStateTo(rows, |rows|, bucket, Met)
    && totals.unmet == InStateTo(rows, |rows|, bucket, Unmet)
    && totals.notObserved == InStateTo(rows, |rows|, bucket, NotReported)
                             + InStateTo(rows, |rows|, bucket, NoObservation)
                             + InStateTo(rows, |rows|, bucket, IsDeparted)
    && totals.window == totals.met + totals.unmet + totals.notObserved
    && (forall state :: state in totals.parts <==> state in UNANSWERED && InStateTo(rows, |rows|, bucket, state) != 0)
    && (forall state :: state in totals.parts ==> totals.parts[state] == InStateTo(rows, |rows|, bucket, state))
  }

  /** Printed under exactly the rules that have a row, with that rule's seconds. */
  ghost predicate AddsByRule(totals: map<RuleId, Totals>, rows: seq<Row>) {
    && (forall id :: id in totals <==> HasRule(rows, |rows|, id))
    && (forall id :: id in totals ==> Adds(totals[id], rows, OfRule(id)))
  }

  ghost predicate AddsByDevice(totals: map<DeviceId, Totals>, rows: seq<Row>) {
    && (forall id :: id in totals <==> HasDevice(rows, |rows|, id))
    && (forall id :: id in totals ==> Adds(totals[id], rows, OfDevice(id)))
  }

  lemma {:induction false} TotalsAdd(tally: Tally, rows: seq<Row>, bucket: Bucket)
    requires forall state :: Component(tally, state) == InStateTo(rows, |rows|, bucket, state)
    ensures Adds(TotalsOf(tally), rows, bucket)
  {
    assert Component(tally, Met) == tally.met && Component(tally, Unmet) == tally.unmet;
    assert Component(tally, NotReported) == tally.notReported && Component(tally, NoObservation) == tally.noObservation;
    assert Component(tally, IsDeparted) == tally.departed;
  }

  lemma {:induction false} OneAdds(rows: seq<Row>, id: string)
    ensures var sums := SumsOf(rows);
            && Adds(TotalsOf(sums.fleet), rows, Fleet)
            && (id in sums.perRule ==> Adds(TotalsOf(sums.perRule[id]), rows, OfRule(id)))
            && (id in sums.perDevice ==> Adds(TotalsOf(sums.perDevice[id]), rows, OfDevice(id)))
  {
    var sums := SumsOf(rows);
    forall state
      ensures Component(sums.fleet, state) == InStateTo(rows, |rows|, Fleet, state)
      ensures ComponentAt(sums.perRule, id, state) == InStateTo(rows, |rows|, OfRule(id), state)
      ensures ComponentAt(sums.perDevice, id, state) == InStateTo(rows, |rows|, OfDevice(id), state)
    {
      StatesAreKept(rows, |rows|, id, state);
    }
    TotalsAdd(sums.fleet, rows, Fleet);
    if id in sums.perRule {
      assert forall state :: Component(sums.perRule[id], state) == ComponentAt(sums.perRule, id, state);
      TotalsAdd(sums.perRule[id], rows, OfRule(id));
    }
    if id in sums.perDevice {
      assert forall state :: Component(sums.perDevice[id], state) == ComponentAt(sums.perDevice, id, state);
      TotalsAdd(sums.perDevice[id], rows, OfDevice(id));
    }
  }

  lemma {:induction false} PrintedAdds(rows: seq<Row>)
    ensures AddsByRule(PrintedTotals(SumsOf(rows).perRule), rows)
    ensures AddsByDevice(PrintedTotals(SumsOf(rows).perDevice), rows)
    ensures Adds(TotalsOf(SumsOf(rows).fleet), rows, Fleet)
  {
    OneAdds(rows, "");
    forall id
      ensures id in SumsOf(rows).perRule <==> HasRule(rows, |rows|, id)
      ensures id in SumsOf(rows).perDevice <==> HasDevice(rows, |rows|, id)
      ensures id in SumsOf(rows).perRule ==> Adds(TotalsOf(SumsOf(rows).perRule[id]), rows, OfRule(id))
      ensures id in SumsOf(rows).perDevice ==> Adds(TotalsOf(SumsOf(rows).perDevice[id]), rows, OfDevice(id))
    {
      BucketsAreKept(rows, |rows|, id);
      OneAdds(rows, id);
    }
  }
}
