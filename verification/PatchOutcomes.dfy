/** What each piece of the patching rule decides: which stored limits are read back, what a judgement says
    of a build in all its states, which builds are severe, and when there is anything to ask. */
module PatchOutcomes {
  import opened Prelude
  import opened PatchPolicy

  // --- three-valued logic ------------------------------------------------------------------

  function Rank(truth: Truth): int {
    match truth
    case False => 0
    case Unknown => 1
    case True => 2
  }

  /** SQL's AND is the lesser of its sides and its OR the greater, with NULL between false and true. */
  lemma {:induction false} KleeneExactly(a: Truth, b: Truth)
    ensures Rank(And(a, b)) == Min(Rank(a), Rank(b)) && Rank(Or(a, b)) == Max(Rank(a), Rank(b))
  {
  }

  // --- rules read back -----------------------------------------------------------------------

  predicate HasLimit(rule: Rule) {
    rule.days.Some? || rule.releases.Some? || rule.severeDays.Some?
  }

  /** The limit that a stored number is read back as: itself from 0 to the ceiling, else none. */
  ghost predicate IsReadBack(limit: Option<int>, stored: Option<int>, ceiling: int) {
    forall n :: limit == Some(n) <==> stored == Some(n) && 0 <= n <= ceiling
  }

  /** A stored rule is read back with exactly its limits in bounds, the severe one only where it is no longer
      than the ordinary one; and it is none exactly where it is then neither exempt nor has a limit. */
  lemma {:induction false} StoredRuleExactly(stored: StoredRule)
    ensures var rule := RuleFrom(Some(stored));
            && (rule.Some? <==>
                  || stored.exempt || (stored.days.Some? && 0 <= stored.days.value <= 3650)
                  || (stored.releases.Some? && 0 <= stored.releases.value <= 1000)
                  || (stored.severeDays.Some? && 0 <= stored.severeDays.value <= 3650))
            && (rule.Some? ==>
                  && rule.value.exempt == stored.exempt && IsReadBack(rule.value.days, stored.days, 3650)
                  && IsReadBack(rule.value.releases, stored.releases, 1000)
                  && forall n :: rule.value.severeDays == Some(n) <==>
                       stored.severeDays == Some(n) && 0 <= n <= 3650
                       && (rule.value.days.Some? ==> n <= rule.value.days.value))
    ensures RuleFrom(None) == None
  {
  }

  /** The rules read back are each title's own, and the organization's where it can judge. */
  lemma {:induction false} StoredRulesExactly(standard: Option<StoredRule>, overrides: map<string, StoredRule>, title: string)
    ensures var rules := RulesFrom(standard, overrides);
            && (title in rules.overrides <==> title in overrides && RuleFrom(Some(overrides[title])).Some?)
            && (title in rules.overrides ==> Some(rules.overrides[title]) == RuleFrom(Some(overrides[title])))
            && (forall rule :: rules.standard == Some(rule) <==>
                  RuleFrom(standard) == Some(rule) && !rule.exempt && HasLimit(rule))
  {
  }

  // --- one build -----------------------------------------------------------------------------

  /** A build past a limit of its rule: later than its deadline, or more releases behind. */
  predicate IsPast(firstNewer: Option<Instant>, missed: Option<int>, rule: Rule, now: Instant, severe: Option<bool>) {
    || (firstNewer.Some? && severe == Some(true) && rule.severeDays.Some?
        && firstNewer.value + rule.severeDays.value * DAY < now)
    || (firstNewer.Some? && !(severe == Some(true) && rule.severeDays.Some?) && rule.days.Some?
        && firstNewer.value + rule.days.value * DAY < now)
    || (missed.Some? && rule.releases.Some? && rule.releases.value < missed.value)
  }

  /** A build is not judged exactly where no rule with a limit governs it or its state is none of the three;
      it is out exactly where it is behind and past a limit; and else it is within. */
  lemma {:induction false} JudgedExactly(
    state: Option<string>, firstNewer: Option<Instant>, missed: Option<int>, rule: Option<Rule>, now: Instant,
    severe: Option<bool>)
    ensures var verdict := Judge(state, firstNewer, missed, rule, now, severe);
            var governed := rule.Some? && !rule.value.exempt && HasLimit(rule.value);
            && (verdict == NotJudged
                <==> !governed || state !in {Some("latest"), Some("ahead"), Some("behind")})
            && (verdict == Out
                <==> governed && state == Some("behind") && IsPast(firstNewer, missed, rule.value, now, severe))
  {
  }

  /** A build is severe exactly where its stored answer is served by the epoch answering now and counts a
      critical or high finding; otherwise it is not severe, and never unknown. */
  lemma {:induction false} SevereExactly(row: Matched, epoch: Option<string>)
    ensures Severe(row, epoch) == True <==>
            && epoch.Some? && row.assessment == Some("covered") && row.signature == epoch
            && (if row.critical.Some? then row.critical.value else 0) + (if row.high.Some? then row.high.value else 0) > 0
    ensures Severe(row, epoch) != Unknown
  {
  }

  // --- what there is to ask ------------------------------------------------------------------

  /** A title no rule names. */
  lemma {:induction false} UnnamedTitle(rules: Rules) returns (title: string)
    ensures title !in rules.overrides && rules.ForTitle(title) == rules.standard
  {
    title := seq(Longest(rules.overrides.Keys), _ => 'a');
  }

  /** The corpus is read exactly where some title is judged with a severe limit. */
  lemma {:induction false} SeverityIsReadExactly(rules: Rules)
    ensures rules.ReadsSeverity() <==>
            exists title :: rules.ForTitle(title).Some?
              && !rules.ForTitle(title).value.exempt && rules.ForTitle(title).value.severeDays.Some?
  {
    var unnamed := UnnamedTitle(rules);
    if rules.standard.Some? && rules.standard.value.Judges() && rules.standard.value.severeDays.Some? {
      assert rules.ForTitle(unnamed).value.severeDays.Some?;
    } else if rules.ReadsSeverity() {
      var title :| title in rules.overrides && rules.overrides[title].Judges() && rules.overrides[title].severeDays.Some?;
      assert rules.ForTitle(title) == Some(rules.overrides[title]);
    }
    if title :| rules.ForTitle(title).Some? && !rules.ForTitle(title).value.exempt
                && rules.ForTitle(title).value.severeDays.Some? {
      assert rules.ForTitle(title).value.Judges();
    }
  }

  /** A build that a rule with a limit puts out. */
  lemma {:induction false} RuleFindsOne(rules: Rules, title: string, now: Instant) returns (row: Matched)
    requires rules.ForTitle(title).Some? && !rules.ForTitle(title).value.exempt && HasLimit(rules.ForTitle(title).value)
    ensures OutOfPolicy(row, rules, now, Some("epoch")) == True && row.title == title
  {
    var rule := rules.ForTitle(title).value;
    var past := now - (Max(Coalesce(rule.days, 0), Coalesce(rule.severeDays, 0)) + 1) * DAY;
    row := Matched(title, 0, None, Some(BEHIND), Some(past), Some(Coalesce(rule.releases, 0) + 1), Some(COVERED),
                   Some("epoch"), Some(1), None);
    assert Severe(row, Some("epoch")) == True;
    if rule.severeDays.Some? {
      SeverityIsReadExactly(rules);
    }
    OutExactly(row, rules, now, Some("epoch"));
  }

  /** With rules read back from storage the query is skipped exactly where no build whatever could be
      out. */
  lemma {:induction false} AskedExactly(standard: Option<StoredRule>, overrides: map<string, StoredRule>, now: Instant)
    ensures var rules := RulesFrom(standard, overrides);
            rules.Judges() <==> exists row :: OutOfPolicy(row, rules, now, Some("epoch")) == True
  {
    var rules := RulesFrom(standard, overrides);
    StoredRulesAgree(standard, overrides);
    if rules.standard.Some? {
      var title := UnnamedTitle(rules);
      var row := RuleFindsOne(rules, title, now);
    } else if rules.Judges() {
      var title :| title in rules.overrides && rules.overrides[title].Judges();
      var row := RuleFindsOne(rules, title, now);
    } else {
      forall row ensures OutOfPolicy(row, rules, now, Some("epoch")) != True {
        var severe := if Severe(row, Some("epoch")) == True then Some(true) else None;
        ClauseIsJudgement(row, rules, now, Some("epoch"), severe);
      }
    }
  }
}
