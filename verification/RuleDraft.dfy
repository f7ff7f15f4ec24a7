/** A patching rule drafted from a stated policy: only numbers the statement's own words give. What a
    pattern finds in a piece of text is a parameter; what is made of it is modelled. */
module RuleDraft {
  import opened Prelude
  import opened Prompt

  const MAX_DAYS := 3650
  const MAX_RELEASES := 1000

  // --- what the words state ----------------------------------------------------------------

  /** A length of time as written: a count of a unit of so many hours. */
  datatype Duration = Duration(count: nat, hours: nat)

  /** What the patterns find in a piece of text. */
  datatype Found = Found(durations: seq<Duration>, fortnight: bool, immediately: bool)

  /** `-(-count * hours // 24)`. */
  function WholeDays(duration: Duration): int {
    var hours: int := duration.count * duration.hours;
    -(-hours / 24)
  }

  /** Hours round up to the least number of days that covers them. */
  lemma {:induction false} WholeDaysIsLeastCover(duration: Duration, days: int)
    ensures WholeDays(duration) <= days <==> duration.count * duration.hours <= 24 * days
  {
    var hours: int := duration.count * duration.hours;
    assert 24 * (-hours / 24) <= -hours < 24 * (-hours / 24) + 24;
  }

  function StatedDays(found: Found): set<int> {
    (set i | 0 <= i < |found.durations| && 0 <= WholeDays(found.durations[i]) <= MAX_DAYS :: WholeDays(found.durations[i]))
    + (if found.fortnight then {14} else {}) + (if found.immediately then {0} else {})
  }

  /** Day `day` is the first by the end of which this many hours have passed. */
  predicate IsLeastCover(duration: Duration, day: int) {
    24 * (day - 1) < duration.count * duration.hours <= 24 * day
  }

  /** The words state a number of days from 0 to 3650: the least that covers a length of time in them, 14 for
      a fortnight, or 0 for immediately. */
  lemma {:induction false} StatedExactly(found: Found, day: int)
    ensures day in StatedDays(found) <==>
            && 0 <= day <= 3650
            && (|| (exists i :: 0 <= i < |found.durations| && IsLeastCover(found.durations[i], day))
                || (found.fortnight && day == 14) || (found.immediately && day == 0))
  {
    forall i | 0 <= i < |found.durations|
      ensures IsLeastCover(found.durations[i], day) <==> WholeDays(found.durations[i]) == day
    {
      WholeDaysIsLeastCover(found.durations[i], day);
      WholeDaysIsLeastCover(found.durations[i], day - 1);
    }
  }

  /** What lies between two clause breaks: the times it states, and the cases it names. */
  datatype Clause = Clause(found: Found, severe: bool, other: bool)

  datatype SpecialDays = SpecialDays(severe: set<int>, other: set<int>) {
    function All(): set<int> {
      severe + other
    }
  }

  predicate States(clause: Clause, day: int) {
    day in StatedDays(clause.found)
  }

  ghost predicate StatedBySevere(clauses: seq<Clause>, n: nat, day: int)
    requires n <= |clauses|
  {
    exists i :: 0 <= i < n && States(clauses[i], day) && clauses[i].severe && !clauses[i].other
  }

  ghost predicate StatedByOther(clauses: seq<Clause>, n: nat, day: int)
    requires n <= |clauses|
  {
    exists i :: 0 <= i < n && States(clauses[i], day) && clauses[i].other
  }

  ghost predicate StatedByOrdinary(clauses: seq<Clause>, n: nat, day: int)
    requires n <= |clauses|
  {
    exists i :: 0 <= i < n && States(clauses[i], day) && !clauses[i].severe && !clauses[i].other
  }

  /** A time is for critical or high findings when a clause about them states it and no ordinary clause
      does; for the other cases when in addition no clause about critical or high does. */
  ghost predicate IsSpecial(clauses: seq<Clause>, special: SpecialDays) {
    && (forall day :: day in special.severe <==>
          StatedBySevere(clauses, |clauses|, day) && !StatedByOrdinary(clauses, |clauses|, day))
    && (forall day :: day in special.other <==>
          StatedByOther(clauses, |clauses|, day) && !StatedByOrdinary(clauses, |clauses|, day)
          && !StatedBySevere(clauses, |clauses|, day))
  }

  method FindSpecialDays(clauses: seq<Clause>) returns (special: SpecialDays)
    ensures IsSpecial(clauses, special)
  {
    var severe: set<int>, other: set<int>, ordinary: set<int> := {}, {}, {};
    for i := 0 to |clauses|
      invariant forall day :: day in severe <==> StatedBySevere(clauses, i, day)
      invariant forall day :: day in other <==> StatedByOther(clauses, i, day)
      invariant forall day :: day in ordinary <==> StatedByOrdinary(clauses, i, day)
    {
      var stated := StatedDays(clauses[i].found);
      ClauseStates(clauses, i);
      if clauses[i].other {
        other := other + stated;
      } else if clauses[i].severe {
        severe := severe + stated;
      } else {
        ordinary := ordinary + stated;
      }
    }
    special := SpecialDays(severe - ordinary, other - ordinary - severe);
  }

  lemma {:induction false} ClauseStates(clauses: seq<Clause>, n: nat)
    requires n < |clauses|
    ensures forall day :: StatedBySevere(clauses, n + 1, day) <==>
                          StatedBySevere(clauses, n, day) || (States(clauses[n], day) && clauses[n].severe && !clauses[n].other)
    ensures forall day :: StatedByOther(clauses, n + 1, day) <==>
                          StatedByOther(clauses, n, day) || (States(clauses[n], day) && clauses[n].other)
    ensures forall day :: StatedByOrdinary(clauses, n + 1, day) <==>
                          StatedByOrdinary(clauses, n, day) || (States(clauses[n], day) && !clauses[n].severe && !clauses[n].other)
  {
  }

  /** A time is special exactly when some clause states it and every clause that does names a special
      case; and it is special in one way only. */
  lemma {:induction false} SpecialExactly(clauses: seq<Clause>, special: SpecialDays, day: int)
    requires IsSpecial(clauses, special)
    ensures day in special.All() <==>
            && (exists i :: 0 <= i < |clauses| && States(clauses[i], day))
            && (forall i :: 0 <= i < |clauses| && States(clauses[i], day) ==> clauses[i].severe || clauses[i].other)
    ensures special.severe !! special.other
  {
    forall other ensures !(other in special.severe && other in special.other) {
    }
  }

  // --- the draft ---------------------------------------------------------------------------

  datatype Box = Days | Severe | Releases

  datatype Remark =
    | Dropped(box: Box)
    | OrdinaryIs(days: int)
    | SevereIs(days: int)
    | Ignored

  datatype Draft = Draft(days: Option<int>, severe: Option<int>, releases: Option<int>, cannot: seq<string>, repairs: seq<Remark>)

  /** What the statement states, and for each code the model may name whether the words bear it out. */
  datatype Statement = Statement(days: set<int>, releases: set<int>, special: SpecialDays, bearsOut: string -> bool)

  const CANNOT := ["hardware", "os", "apps", "process"]
  const CANNOT_SEVERITY := "severity"
  const CANNOT_NO_NUMBER := "no_number"

  predicate SaysNothing(value: Json, lex: Lexicon) {
    value == JsonNull || (value.JsonText? && lex.lower(lex.strip(value.text)) in {"", "null", "none"})
  }

  /** The whole number a value gives: itself, a run of digits as `int` reads it, or a float with nothing
      after its point. */
  function WholeNumber(value: Json, lex: Lexicon): Option<int> {
    if value.JsonInt? then Some(value.number)
    else if value.JsonFloat? && value.amount.Floor as real == value.amount then Some(value.amount.Floor)
    else if value.JsonText? && lex.isDigits(lex.strip(value.text)) then
      var number := lex.toInt(lex.strip(value.text));
      if number.Some? then Some(number.value) else None
    else None
  }

  /** A run of digits that `int` refuses: the reading raises. */
  predicate Raises(value: Json, lex: Lexicon) {
    !SaysNothing(value, lex) && value.JsonText? && lex.isDigits(lex.strip(value.text)) && lex.toInt(lex.strip(value.text)) == None
  }

  /** A limit a reply proposes that is within bounds and that the statement states. */
  predicate Proposes(value: Json, ceiling: int, stated: set<int>, n: int, lex: Lexicon) {
    !SaysNothing(value, lex) && WholeNumber(value, lex) == Some(n) && 0 <= n <= ceiling && n in stated
  }

  /** The reply leaves a box alone: null, or a text that is empty or a word for nothing. */
  predicate LeavesAlone(value: Json, lex: Lexicon) {
    match value
    case JsonNull => true
    case JsonText(text) => var word := lex.lower(lex.strip(text)); |word| == 0 || word == "null" || word == "none"
    case _ => false
  }

  /** A value gives a whole number: as one, as a float equal to it, or as digits that `int` reads so. */
  predicate Gives(value: Json, n: int, lex: Lexicon) {
    match value
    case JsonInt(number) => number == n
    case JsonFloat(amount) => amount == n as real
    case JsonText(text) =>
      var word := lex.strip(text);
      lex.isDigits(word) && lex.toInt(word).Some? && lex.toInt(word).value == n
    case _ => false
  }

  /** A proposal counts exactly where the reply gives the number, in bounds and stated; and reading one raises
      exactly on a text of digits that `int` refuses. */
  lemma {:induction false} ProposesExactly(value: Json, ceiling: int, stated: set<int>, n: int, lex: Lexicon)
    ensures SaysNothing(value, lex) <==> LeavesAlone(value, lex)
    ensures Proposes(value, ceiling, stated, n, lex)
       <==> !LeavesAlone(value, lex) && Gives(value, n, lex) && 0 <= n <= ceiling && n in stated
    ensures Raises(value, lex) <==>
            && !LeavesAlone(value, lex) && value.JsonText?
            && lex.isDigits(lex.strip(value.text)) && !lex.toInt(lex.strip(value.text)).Some?
  {
  }

  /** `_limit`: one limit off the reply, or nothing, whether it says why, and whether it raises instead. */
  method Limit(value: Json, ceiling: int, stated: set<int>, lex: Lexicon)
    returns (limit: Option<int>, dropped: bool, raises: bool)
    ensures raises <==> Raises(value, lex)
    ensures forall n :: limit == Some(n) <==> Proposes(value, ceiling, stated, n, lex)
    ensures dropped <==> limit == None && !raises && !SaysNothing(value, lex)
    ensures limit.Some? ==> !SaysNothing(value, lex)
  {
    if SaysNothing(value, lex) {
      return None, false, false;
    }
    var number: Option<int> := None;
    if value.JsonText? && lex.isDigits(lex.strip(value.text)) {
      var digits := lex.toInt(lex.strip(value.text));
      if digits == None {
        return None, false, true;
      }
      number := Some(digits.value);
    } else if value.JsonInt? {
      number := Some(value.number);
    } else if value.JsonFloat? && value.amount.Floor as real == value.amount {
      number := Some(value.amount.Floor);
    }
    if number == None || !(0 <= number.value <= ceiling) {
      return None, true, false;
    }
    if number.value !in stated {
      return None, true, false;
    }
    return number, false, false;
  }

  /** `_cannot`: the codes named that the statement bears out, in the list's own order. */
  function Kept(named: set<string>, statement: Statement, n: nat): seq<string>
    requires n <= |CANNOT|
  {
    if n == 0 then []
    else
      var earlier := Kept(named, statement, n - 1);
      if CANNOT[n - 1] in named && statement.bearsOut(CANNOT[n - 1]) then earlier + [CANNOT[n - 1]] else earlier
  }

  predicate IsCode(code: string, named: set<string>, statement: Statement) {
    code in {"hardware", "os", "apps", "process"} && code in named && statement.bearsOut(code)
  }

  /** Exactly the four codes that are named and borne out, once each and in the list's own order. */
  lemma {:induction false} KeptExactly(named: set<string>, statement: Statement, code: string)
    ensures code in Kept(named, statement, |CANNOT|) <==> IsCode(code, named, statement)
    ensures KeptInOrder(Kept(named, statement, |CANNOT|))
  {
    assert Kept(named, statement, 0) == [];
    assert Kept(named, statement, 1) == if IsCode("hardware", named, statement) then ["hardware"] else [];
    assert Kept(named, statement, 2)
        == Kept(named, statement, 1) + if IsCode("os", named, statement) then ["os"] else [];
    assert Kept(named, statement, 3)
        == Kept(named, statement, 2) + if IsCode("apps", named, statement) then ["apps"] else [];
    assert Kept(named, statement, 4)
        == Kept(named, statement, 3) + if IsCode("process", named, statement) then ["process"] else [];
  }

  function CodeRank(code: string): nat {
    if code == "hardware" then 0 else if code == "os" then 1 else if code == "apps" then 2 else 3
  }

  predicate KeptInOrder(codes: seq<string>) {
    forall i, j :: 0 <= i < j < |codes| ==> CodeRank(codes[i]) < CodeRank(codes[j])
  }

  predicate Has(repairs: seq<Remark>, remark: Remark) {
    exists i :: 0 <= i < |repairs| && repairs[i] == remark
  }

  /** The one day a set holds, if it holds one. */
  ghost predicate IsOnly(days: set<int>, day: int) {
    days == {day}
  }

  lemma {:induction false} OnlyOne(days: set<int>, day: int)
    requires day in days
    ensures |days| == 1 <==> IsOnly(days, day)
  {
    if |days| == 1 {
      assert days - {day} == {} by {
        assert |days - {day}| == 0;
      }
    }
  }

  lemma {:induction false} HasJoined(a: seq<Remark>, b: seq<Remark>)
    ensures forall remark :: Has(a + b, remark) <==> Has(a, remark) || Has(b, remark)
  {
    forall remark | Has(a, remark) ensures Has(a + b, remark) {
      var i :| 0 <= i < |a| && a[i] == remark;
      assert (a + b)[i] == remark;
    }
    forall remark | Has(b, remark) ensures Has(a + b, remark) {
      var i :| 0 <= i < |b| && b[i] == remark;
      assert (a + b)[|a| + i] == remark;
    }
  }

  lemma {:induction false} HasOne(one: Remark)
    ensures forall remark :: Has([one], remark) <==> remark == one
    ensures forall remark :: !Has([], remark)
  {
    assert [one][0] == one;
  }

  lemma {:induction false} HoldsOne(days: set<int>)
    requires |days| == 1
    ensures exists day :: day in days
  {
    assert (forall day :: day !in days) ==> days == {};
  }

  lemma {:induction false} OnlyExactly(days: set<int>)
    ensures forall day :: IsOnly(days, day) <==> |days| == 1 && day in days
  {
    forall day ensures IsOnly(days, day) <==> |days| == 1 && day in days {
      if day in days {
        OnlyOne(days, day);
      }
    }
  }

  const DRAFT_KEYS := {"days", "severe_days", "releases", "cannot"}

  /** The number proposed for ordinary updates is one the statement gives for them. */
  ghost predicate IsDays(n: int, reply: Reply, statement: Statement, lex: Lexicon) {
    Proposes(Given(reply, "days"), MAX_DAYS, statement.days, n, lex) && n !in statement.special.All()
  }

  /** The number proposed for critical and high findings is the only one the statement gives for them,
      and is no longer than the ordinary one. */
  ghost predicate IsSevere(n: int, days: Option<int>, reply: Reply, statement: Statement, lex: Lexicon) {
    && Proposes(Given(reply, "severe_days"), MAX_DAYS, statement.days, n, lex)
    && IsOnly(statement.special.severe, n) && (days.Some? ==> n <= days.value)
  }

  predicate Offers(reply: Reply, key: string, lex: Lexicon) {
    !SaysNothing(Given(reply, key), lex)
  }

  /** The ordinary box is remarked on when a proposal does not fill it, and when it is empty and the
      statement has one number for it. */
  ghost predicate OnOrdinary(remark: Remark, days: Option<int>, reply: Reply, statement: Statement, lex: Lexicon) {
    || (remark == Dropped(Days) && days == None && Offers(reply, "days", lex))
    || (remark.OrdinaryIs? && days == None && IsOnly(statement.days - statement.special.All(), remark.days))
  }

  /** The severe box is remarked on when a proposal does not fill it, and when the model left out the one
      number the statement has for it. */
  ghost predicate OnSevere(remark: Remark, severe: Option<int>, reply: Reply, statement: Statement, lex: Lexicon) {
    || (remark == Dropped(Severe) && severe == None && Offers(reply, "severe_days", lex))
    || (remark.SevereIs? && IsOnly(statement.special.severe, remark.days) && Given(reply, "severe_days") == JsonNull)
  }

  ghost predicate OnReleases(remark: Remark, releases: Option<int>, reply: Reply, lex: Lexicon) {
    remark == Dropped(Releases) && releases == None && Offers(reply, "releases", lex)
  }

  ghost predicate OnKeys(remark: Remark, reply: Reply, lex: Lexicon) {
    remark == Remark.Ignored && IgnoredKeys(reply, DRAFT_KEYS, lex) != []
  }

  ghost predicate IsRemark(remark: Remark, draft: Draft, reply: Reply, statement: Statement, lex: Lexicon) {
    || OnKeys(remark, reply, lex) || OnOrdinary(remark, draft.days, reply, statement, lex)
    || OnSevere(remark, draft.severe, reply, statement, lex) || OnReleases(remark, draft.releases, reply, lex)
  }

  /** The ordinary box. */
  method OrdinaryLimit(
    reply: Reply, statement: Statement, lex: Lexicon) returns (days: Option<int>, repairs: seq<Remark>, raises: bool)
    ensures raises <==> Raises(Given(reply, "days"), lex)
    ensures forall n :: days == Some(n) <==> IsDays(n, reply, statement, lex)
    ensures !raises ==> forall remark :: Has(repairs, remark) <==> OnOrdinary(remark, days, reply, statement, lex)
  {
    var dropped: bool;
    days, dropped, raises := Limit(Given(reply, "days"), MAX_DAYS, statement.days, lex);
    repairs := [];
    if raises {
      return;
    }
    if days.Some? && days.value in statement.special.All() {
      days, dropped := None, true;
    }
    repairs := if dropped then [Dropped(Days)] else [];
    HasOne(Dropped(Days));
    var ordinary := statement.days - statement.special.All();
    if days == None && |ordinary| == 1 {
      HoldsOne(ordinary);
      var only :| only in ordinary;
      OnlyExactly(ordinary);
      assert IsOnly(ordinary, only) && forall day :: day in ordinary <==> day == only;
      HasJoined(repairs, [OrdinaryIs(only)]);
      HasOne(OrdinaryIs(only));
      repairs := repairs + [OrdinaryIs(only)];
    } else {
      OnlyExactly(ordinary);
    }
  }

  /** The box for critical and high findings, given what the ordinary box came to hold. */
  method SevereLimit(reply: Reply, statement: Statement, days: Option<int>, lex: Lexicon)
    returns (severe: Option<int>, repairs: seq<Remark>, raises: bool)
    ensures raises <==> Raises(Given(reply, "severe_days"), lex)
    ensures forall n :: severe == Some(n) <==> IsSevere(n, days, reply, statement, lex)
    ensures !raises ==> forall remark :: Has(repairs, remark) <==> OnSevere(remark, severe, reply, statement, lex)
  {
    var special := statement.special;
    var dropped: bool;
    severe, dropped, raises := Limit(Given(reply, "severe_days"), MAX_DAYS, statement.days, lex);
    repairs := [];
    if raises {
      return;
    }
    HasOne(Dropped(Severe));
    if severe.Some? && severe.value !in special.severe {
      severe, dropped := None, true;
    }
    if |special.severe| > 1 {
      if severe.Some? {
        severe, dropped := None, true;
      }
    } else if severe == None && |special.severe| == 1 && Given(reply, "severe_days") == JsonNull {
      HoldsOne(special.severe);
      var only :| only in special.severe;
      OnlyExactly(special.severe);
      assert IsOnly(special.severe, only) && forall day :: day in special.severe <==> day == only;
      HasOne(SevereIs(only));
      repairs := [SevereIs(only)];
    }
    OnlyExactly(special.severe);
    if severe.Some? && days.Some? && severe.value > days.value {
      severe, dropped := None, true;
    }
    if dropped {
      repairs := [Dropped(Severe)];
    }
  }

  /** Some limit the reply proposes is a run of digits that `int` refuses. */
  predicate RaisesSomewhere(reply: Reply, lex: Lexicon) {
    Raises(Given(reply, "days"), lex) || Raises(Given(reply, "severe_days"), lex) || Raises(Given(reply, "releases"), lex)
  }

  /** Each box holds a number exactly when the reply proposes it and the statement's words give it, exactly
      the proposals that fill no box are remarked on, and the codes are those the words bear out. */
  ghost predicate IsDraft(draft: Draft, reply: Reply, named: set<string>, statement: Statement, lex: Lexicon) {
    && (forall n :: draft.days == Some(n) <==> IsDays(n, reply, statement, lex))
    && (forall n :: draft.severe == Some(n) <==> IsSevere(n, draft.days, reply, statement, lex))
    && (forall n :: draft.releases == Some(n) <==>
          Proposes(Given(reply, "releases"), MAX_RELEASES, statement.releases, n, lex))
    && (forall remark :: Has(draft.repairs, remark) <==> IsRemark(remark, draft, reply, statement, lex))
    && draft.cannot ==
       (if statement.special.other != {} || |statement.special.severe| > 1 then [CANNOT_SEVERITY] else []) +
       Kept(named, statement, |CANNOT|) +
       (if statement.days == {} && statement.releases == {} then [CANNOT_NO_NUMBER] else [])
  }

  lemma {:induction false} RemarksJoin(
    ignored: seq<Remark>, r1: seq<Remark>, r2: seq<Remark>, r3: seq<Remark>, draft: Draft, reply: Reply,
    statement: Statement, lex: Lexicon)
    requires forall remark :: Has(ignored, remark) <==> OnKeys(remark, reply, lex)
    requires forall remark :: Has(r1, remark) <==> OnOrdinary(remark, draft.days, reply, statement, lex)
    requires forall remark :: Has(r2, remark) <==> OnSevere(remark, draft.severe, reply, statement, lex)
    requires forall remark :: Has(r3, remark) <==> OnReleases(remark, draft.releases, reply, lex)
    ensures forall remark :: Has(ignored + r1 + r2 + r3, remark) <==> IsRemark(remark, draft, reply, statement, lex)
  {
    HasJoined(ignored, r1);
    HasJoined(ignored + r1, r2);
    HasJoined(ignored + r1 + r2, r3);
  }

  datatype Outcome = Drafted(draft: Draft) | Raised

  /** A reply forced into the three boxes, unless a limit it proposes cannot be read at all. */
  method Coerce(reply: Reply, named: set<string>, statement: Statement, lex: Lexicon) returns (outcome: Outcome)
    ensures outcome == Raised <==> RaisesSomewhere(reply, lex)
    ensures outcome.Drafted? ==> IsDraft(outcome.draft, reply, named, statement, lex)
  {
    var ignored := if IgnoredKeys(reply, DRAFT_KEYS, lex) == [] then [] else [Remark.Ignored];
    var days, r1, unread := OrdinaryLimit(reply, statement, lex);
    if unread {
      return Raised;
    }
    var severe, r2, unreadSevere := SevereLimit(reply, statement, days, lex);
    if unreadSevere {
      return Raised;
    }
    var releases, dropped, unreadReleases := Limit(Given(reply, "releases"), MAX_RELEASES, statement.releases, lex);
    if unreadReleases {
      return Raised;
    }
    var r3 := if dropped then [Dropped(Releases)] else [];
    var cannot := Kept(named, statement, |CANNOT|);
    if statement.special.other != {} || |statement.special.severe| > 1 {
      cannot := [CANNOT_SEVERITY] + cannot;
    }
    if statement.days == {} && statement.releases == {} {
      cannot := cannot + [CANNOT_NO_NUMBER];
    }
    assert forall remark :: Has(ignored, remark) <==> OnKeys(remark, reply, lex) by {
      HasOne(Remark.Ignored);
    }
    assert forall remark :: Has(r3, remark) <==> OnReleases(remark, releases, reply, lex) by {
      HasOne(Dropped(Releases));
    }
    var draft := Draft(days, severe, releases, cannot, ignored + r1 + r2 + r3);
    RemarksJoin(ignored, r1, r2, r3, draft, reply, statement, lex);
    outcome := Drafted(draft);
  }

  /** What every draft that meets its specification is grounded in: no box holds a number the statement
      does not give for it, and the severe limit is strictly the shorter. */
  lemma {:induction false} DraftIsGrounded(
    draft: Draft, reply: Reply, statement: Statement, clauses: seq<Clause>, lex: Lexicon)
    requires IsSpecial(clauses, statement.special)
    requires forall n :: draft.days == Some(n) <==> IsDays(n, reply, statement, lex)
    requires forall n :: draft.severe == Some(n) <==> IsSevere(n, draft.days, reply, statement, lex)
    ensures draft.days.Some? ==>
              && draft.days.value in statement.days && 0 <= draft.days.value <= 3650
              && (forall i :: 0 <= i < |clauses| && States(clauses[i], draft.days.value) ==>
                    exists j :: 0 <= j < |clauses| && States(clauses[j], draft.days.value)
                                && !clauses[j].severe && !clauses[j].other)
    ensures draft.severe.Some? ==>
              && draft.severe.value in statement.days && 0 <= draft.severe.value <= 3650
              && StatedBySevere(clauses, |clauses|, draft.severe.value)
              && !StatedByOrdinary(clauses, |clauses|, draft.severe.value)
    ensures draft.severe.Some? && draft.days.Some? ==> draft.severe.value < draft.days.value
    ensures statement.days == {} ==> draft.days == None && draft.severe == None
    ensures draft.releases.Some? ==>
              Proposes(Given(reply, "releases"), MAX_RELEASES, statement.releases, draft.releases.value, lex) ==>
                draft.releases.value in statement.releases && 0 <= draft.releases.value <= 1000
  {
    if draft.days.Some? {
      var n := draft.days.value;
      assert IsDays(n, reply, statement, lex);
      SpecialExactly(clauses, statement.special, n);
    }
    if draft.severe.Some? {
      var n := draft.severe.value;
      assert IsSevere(n, draft.days, reply, statement, lex);
      assert n in statement.special.severe;
    }
  }
}
