/** The patching rule, in its two dialects: a judgement of one build, and the SQL clause that counts the
    devices it puts out of policy, evaluated in three-valued logic. */
module PatchPolicy {
  import opened Prelude

  const BEHIND := "behind"
  const LATEST := "latest"
  const AHEAD := "ahead"
  const COVERED := "covered"
  const MAX_DAYS := 3650
  const MAX_RELEASES := 1000

  // --- rules -------------------------------------------------------------------------------

  datatype Rule = Rule(days: Option<int>, releases: Option<int>, severeDays: Option<int>, exempt: bool) {
    predicate Judges() {
      !exempt && (days.Some? || releases.Some? || severeDays.Some?)
    }

    /** Only a build known to be severe takes the severe limit. */
    function DaysFor(severe: Option<bool>): Option<int> {
      if severe == Some(true) && severeDays.Some? then severeDays else days
    }
  }

  datatype Rules = Rules(standard: Option<Rule>, overrides: map<string, Rule>) {
    function ForTitle(title: string): Option<Rule> {
      if title in overrides then Some(overrides[title]) else standard
    }

    predicate Judges() {
      standard.Some? || exists title :: title in overrides && overrides[title].Judges()
    }

    predicate ReadsSeverity() {
      || (standard.Some? && standard.value.Judges() && standard.value.severeDays.Some?)
      || exists title :: title in overrides && overrides[title].Judges() && overrides[title].severeDays.Some?
    }
  }

  /** A rule as a settings row holds it: anything that is not a whole number reads as none. */
  datatype StoredRule = StoredRule(days: Option<int>, releases: Option<int>, severeDays: Option<int>, exempt: bool)

  function InBounds(value: Option<int>, ceiling: int): Option<int> {
    if value.Some? && 0 <= value.value <= ceiling then value else None
  }

  function RuleFrom(stored: Option<StoredRule>): Option<Rule> {
    if stored == None then None
    else
      var days := InBounds(stored.value.days, MAX_DAYS);
      var severe := InBounds(stored.value.severeDays, MAX_DAYS);
      var stricter := if severe.Some? && days.Some? && severe.value > days.value then None else severe;
      var rule := Rule(days, InBounds(stored.value.releases, MAX_RELEASES), stricter, stored.value.exempt);
      if rule.exempt || rule.Judges() then Some(rule) else None
  }

  function RulesFrom(standard: Option<StoredRule>, overrides: map<string, StoredRule>): Rules {
    var whole := RuleFrom(standard);
    Rules(if whole.Some? && whole.value.Judges() then whole else None,
          map title | title in overrides && RuleFrom(Some(overrides[title])).Some? :: RuleFrom(Some(overrides[title])).value)
  }

  // --- one build, judged -------------------------------------------------------------------

  datatype Verdict = Within | Out | NotJudged

  function Judge(
    state: Option<string>, firstNewer: Option<Instant>, missed: Option<int>, rule: Option<Rule>, now: Instant,
    severe: Option<bool>): Verdict {
    if rule == None || !rule.value.Judges() then NotJudged
    else if state == Some(LATEST) || state == Some(AHEAD) then Within
    else if state != Some(BEHIND) then NotJudged
    else
      var limit := rule.value.DaysFor(severe);
      if limit.Some? && firstNewer.Some? && now > firstNewer.value + limit.value * DAY then Out
      else if rule.value.releases.Some? && missed.Some? && missed.value > rule.value.releases.value then Out
      else Within
  }

  // --- SQL ---------------------------------------------------------------------------------

  datatype Truth = True | False | Unknown

  function And(a: Truth, b: Truth): Truth {
    if a == False || b == False then False else if a == True && b == True then True else Unknown
  }

  function Or(a: Truth, b: Truth): Truth {
    if a == True || b == True then True else if a == False && b == False then False else Unknown
  }

  function Of(holds: bool): Truth {
    if holds then True else False
  }

  function Equal<T(==)>(a: Option<T>, b: Option<T>): Truth {
    if a == None || b == None then Unknown else Of(a.value == b.value)
  }

  function Above(a: Option<int>, b: Option<int>): Truth {
    if a == None || b == None then Unknown else Of(a.value > b.value)
  }

  function Coalesce<T>(a: Option<T>, b: T): T {
    if a == None then b else a.value
  }

  function CoalesceTruth(a: Truth, b: Truth): Truth {
    if a == Unknown then b else a
  }

  /** One matched build on one device; every column but the keys may be NULL. */
  datatype Matched = Matched(
    title: string, device: nat, onLatest: Option<bool>, state: Option<string>, firstNewer: Option<Instant>,
    missed: Option<int>, assessment: Option<string>, signature: Option<string>, critical: Option<int>,
    high: Option<int>)

  /** A CASE over a column of limits: the title's own rule where it has one, else the organization's. */
  function TitleLimit(title: string, rules: Rules, limit: Rule -> Option<int>): Option<int> {
    if title in rules.overrides then limit(rules.overrides[title])
    else if rules.standard.Some? then limit(rules.standard.value)
    else None
  }

  function Severe(row: Matched, epoch: Option<string>): Truth {
    if epoch == None then False
    else
      var findings := Coalesce(row.critical, 0) + Coalesce(row.high, 0);
      var served := And(Equal(row.assessment, Some(COVERED)), Equal(row.signature, epoch));
      CoalesceTruth(And(served, Of(findings > 0)), False)
  }

  function DaysLimit(row: Matched, rules: Rules, epoch: Option<string>): Option<int> {
    var days := TitleLimit(row.title, rules, (rule: Rule) => rule.days);
    if !rules.ReadsSeverity() then days
    else
      var severeDays := TitleLimit(row.title, rules, (rule: Rule) => rule.severeDays);
      if And(Severe(row, epoch), Of(severeDays.Some?)) == True then severeDays else days
  }

  function Exempt(rules: Rules): set<string> {
    set title | title in rules.overrides && rules.overrides[title].exempt
  }

  /** The WHERE clause. */
  function OutOfPolicy(row: Matched, rules: Rules, now: Instant, epoch: Option<string>): Truth {
    var days := DaysLimit(row, rules, epoch);
    var releases := TitleLimit(row.title, rules, (rule: Rule) => rule.releases);
    var deadline := if row.firstNewer == None || days == None then None else Some(row.firstNewer.value + days.value * DAY);
    var pastDays := Above(Some(now), deadline);
    var pastReleases := Above(row.missed, releases);
    var clause := And(Equal(row.state, Some(BEHIND)), Or(pastDays, pastReleases));
    if Exempt(rules) != {} then And(clause, Of(row.title !in Exempt(rules))) else clause
  }

  predicate Past(now: Instant, firstNewer: Option<Instant>, days: Option<int>) {
    firstNewer.Some? && days.Some? && now > firstNewer.value + days.value * DAY
  }

  predicate Beyond(missed: Option<int>, releases: Option<int>) {
    missed.Some? && releases.Some? && missed.value > releases.value
  }

  /** NULLs and all, the clause is TRUE exactly when four things hold: the build is behind, its title is
      not exempt, a rule governs it (its own or else the organization's), and a limit that rule sets is
      exceeded, the severe limit standing for the days limit of a severe build where the rule has one. */
  lemma {:induction false} OutExactly(row: Matched, rules: Rules, now: Instant, epoch: Option<string>)
    ensures OutOfPolicy(row, rules, now, epoch) == True <==>
            && row.state == Some(BEHIND)
            && !(row.title in rules.overrides && rules.overrides[row.title].exempt)
            && rules.ForTitle(row.title).Some?
            && var rule := rules.ForTitle(row.title).value;
               var severe := rules.ReadsSeverity() && Severe(row, epoch) == True && rule.severeDays.Some?;
               Past(now, row.firstNewer, if severe then rule.severeDays else rule.days) || Beyond(row.missed, rule.releases)
  {
    assert row.title in Exempt(rules) <==> row.title in rules.overrides && rules.overrides[row.title].exempt;
  }

  // --- one predicate in two dialects -------------------------------------------------------

  /** What the corpus says of a build, as a judgement is told it: severe, not severe, or not assessed. */
  ghost predicate TellsSeverity(row: Matched, epoch: Option<string>, severe: Option<bool>) {
    severe == Some(true) <==> Severe(row, epoch) == True
  }

  /** An organization's rule that is exempt and yet carries a limit the clause would read. */
  predicate ExemptWithLimit(rules: Rules) {
    rules.standard.Some? && rules.standard.value.exempt &&
    (rules.standard.value.days.Some? || rules.standard.value.releases.Some?
     || (rules.standard.value.severeDays.Some? && rules.ReadsSeverity()))
  }

  ghost predicate Agree(row: Matched, rules: Rules, now: Instant, epoch: Option<string>, severe: Option<bool>) {
    OutOfPolicy(row, rules, now, epoch) == True
    <==> Judge(row.state, row.firstNewer, row.missed, rules.ForTitle(row.title), now, severe) == Out
  }

  /** For every row, NULLs and all, the clause is TRUE exactly when the judgement is `out`. */
  lemma {:induction false} ClauseIsJudgement(
    row: Matched, rules: Rules, now: Instant, epoch: Option<string>, severe: Option<bool>)
    requires !ExemptWithLimit(rules) && TellsSeverity(row, epoch, severe)
    ensures Agree(row, rules, now, epoch, severe)
  {
    var rule := rules.ForTitle(row.title);
    if rule.Some? && !rule.value.exempt {
      LimitIsDaysFor(row, rules, epoch, severe);
      assert row.title !in Exempt(rules);
    } else if row.title in rules.overrides {
      assert row.title in Exempt(rules);
    } else {
      assert DaysLimit(row, rules, epoch) == None;
    }
  }

  lemma {:induction false} LimitIsDaysFor(row: Matched, rules: Rules, epoch: Option<string>, severe: Option<bool>)
    requires rules.ForTitle(row.title).Some? && !rules.ForTitle(row.title).value.exempt
    requires TellsSeverity(row, epoch, severe)
    ensures DaysLimit(row, rules, epoch) == rules.ForTitle(row.title).value.DaysFor(severe)
  {
    var rule := rules.ForTitle(row.title).value;
    if rule.severeDays.Some? {
      assert rule.Judges();
      assert rules.ReadsSeverity();
    }
  }

  /** The row on which the two part when an exempt organization's rule carries a limit. */
  lemma {:induction false} ExemptLimitParts(
    rules: Rules, now: Instant) returns (row: Matched, epoch: Option<string>, severe: Option<bool>)
    requires ExemptWithLimit(rules)
    ensures TellsSeverity(row, epoch, severe) && !Agree(row, rules, now, epoch, severe)
  {
    var rule := rules.standard.value;
    // A title no rule names: one as long as none of them is.
    var title: string := seq(Longest(rules.overrides.Keys), _ => 'a');
    assert title !in rules.overrides;
    var past := now - (Max(Coalesce(rule.days, 0), Coalesce(rule.severeDays, 0)) + 1) * DAY;
    var missed := Coalesce(rule.releases, 0) + 1;
    epoch, severe := Some("epoch"), Some(true);
    row := Matched(title, 0, None, Some(BEHIND), Some(past), Some(missed), Some(COVERED), epoch, Some(1), None);
    assert Severe(row, epoch) == True;
    assert title !in Exempt(rules);
    assert rules.ForTitle(title) == rules.standard;
  }

  /** The two dialects agree on every row exactly when the organization's rule is not an exempt one with
      a limit the clause reads. */
  lemma {:induction false} DialectsAgreeExactly(rules: Rules)
    ensures !ExemptWithLimit(rules) <==>
            forall row, now, epoch, severe :: TellsSeverity(row, epoch, severe) ==> Agree(row, rules, now, epoch, severe)
  {
    if ExemptWithLimit(rules) {
      var row, epoch, severe := ExemptLimitParts(rules, 0);
      assert TellsSeverity(row, epoch, severe) && !Agree(row, rules, 0, epoch, severe);
    } else {
      forall row, now, epoch, severe | TellsSeverity(row, epoch, severe) ensures Agree(row, rules, now, epoch, severe) {
        ClauseIsJudgement(row, rules, now, epoch, severe);
      }
    }
  }

  predicate IsStricter(rule: Rule) {
    rule.severeDays.Some? && rule.days.Some? ==> rule.severeDays.value <= rule.days.value
  }

  /** Rules read back from storage are never the exception: the organization's judges or is none, no
      severe limit is the looser, and an override that says nothing is none. */
  lemma {:induction false} StoredRulesAgree(standard: Option<StoredRule>, overrides: map<string, StoredRule>)
    ensures var rules := RulesFrom(standard, overrides);
            && !ExemptWithLimit(rules)
            && (rules.standard.Some? ==> rules.standard.value.Judges())
            && (forall title :: title in rules.overrides ==> rules.overrides[title].exempt || rules.overrides[title].Judges())
            && (forall title :: title in rules.overrides ==> IsStricter(rules.overrides[title]))
            && (rules.standard.Some? ==> IsStricter(rules.standard.value))
  {
  }

  // --- the counts --------------------------------------------------------------------------

  /** `count(distinct device)` over the rows of a title that a condition is TRUE of. */
  ghost function Devices(rows: seq<Matched>, title: string, chosen: Matched -> bool): set<nat> {
    set i | 0 <= i < |rows| && rows[i].title == title && chosen(rows[i]) :: rows[i].device
  }

  lemma {:induction false} SubsetIsSmaller(a: set<nat>, b: set<nat>)
    requires a <= b
    ensures |a| <= |b|
  {
    if a != {} {
      var one :| one in a;
      SubsetIsSmaller(a - {one}, b - {one});
    }
  }

  /** Whatever the rows and the rules: devices out of policy are devices behind, which are devices. */
  lemma {:induction false} CountsAreNested(
    rows: seq<Matched>, title: string, rules: Rules, now: Instant, epoch: Option<string>)
    ensures var devices := Devices(rows, title, (row: Matched) => true);
            var behind := Devices(rows, title, (row: Matched) => Equal(row.state, Some(BEHIND)) == True);
            var out := Devices(rows, title, (row: Matched) => OutOfPolicy(row, rules, now, epoch) == True);
            out <= behind <= devices && |out| <= |behind| <= |devices|
  {
    var devices := Devices(rows, title, (row: Matched) => true);
    var behind := Devices(rows, title, (row: Matched) => Equal(row.state, Some(BEHIND)) == True);
    var out := Devices(rows, title, (row: Matched) => OutOfPolicy(row, rules, now, epoch) == True);
    assert forall row :: OutOfPolicy(row, rules, now, epoch) == True ==> Equal(row.state, Some(BEHIND)) == True;
    SubsetIsSmaller(out, behind);
    SubsetIsSmaller(behind, devices);
  }

  /** Not asking when no rule judges is asking and finding none. */
  lemma {:induction false} NoRuleFindsNone(
    rows: seq<Matched>, title: string, rules: Rules, now: Instant, epoch: Option<string>)
    requires !rules.Judges()
    ensures Devices(rows, title, (row: Matched) => OutOfPolicy(row, rules, now, epoch) == True) == {}
  {
    forall row: Matched ensures OutOfPolicy(row, rules, now, epoch) != True {
      var severe := if Severe(row, epoch) == True then Some(true) else None;
      ClauseIsJudgement(row, rules, now, epoch, severe);
    }
  }
}
