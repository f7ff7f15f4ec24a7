# LoonInspect: verified models of its algorithms

A Dafny 4.11 model of the algorithms LoonInspect relies on to keep its promises: the evidence report's
intervals and sums, the serial lane in front of a model endpoint, the change detector, the alert latch, the
rule evaluator's cache, the text that goes to and comes from a model, the fixture scrubber, the login lockout
and the patching rule. Code that changes state step by step is modelled by methods and classes, each tied to a
function of its inputs or of the old state; what the program promises is then proved about those functions,
for every input, every run or every reachable state.

`dafny verify dfyconfig.toml` checks the whole project. Nothing was executed.

## The modules

| file | models |
|---|---|
| `Prelude`, `Texts`, `Numerals` | optional values, instants (whole microseconds), a first index by key, counts; parts and ends of texts, and what Python reads as digits; numbers written in figures of a base |
| `Intervals`, `IslandRuns`, `ExactCover`, `TiedRows`, `Stretches` | the interval query as a running sum and group aggregates; the maximal runs it must equal; the cover of a window, against a naive answer at each instant; what every order of tied rows keeps; everything else an interval prints, against the raw spans |
| `Tallies`, `Report`, `RowFacts`, `SumCloses` | the tallies and the figures printed of them; the report's loops; what its rows are; why met + unmet + not observed is the window |
| `SerialLane`, `LaneRuns` | the lane's protocol as a state machine, and the class whose methods are its atomic segments; every interleaving of it |
| `Documents`, `Flatten`, `ScalarDiff` | values, string order, documents; flattening and its inverse; the scalar diff |
| `Identity`, `EntryDiff`, `PairingFacts`, `StableSort`, `ChangeList`, `ListFacts` | identity keys; pairing entries that went with entries that came; what the pairing guarantees; the order of the list; the same guarantees read off the list |
| `Alerts`, `LatchHistory`, `RowHistory` | the latch's decision and statements; its meaning by history and under any interleaving; what every row says of its history |
| `Evaluator`, `LeastRecent` | verdicts, version order and the cache; what the cache holds |
| `OnePass`, `Sanitise` | one pass over a line's tokens; the way in of a typed question |
| `Serials`, `Prompt`, `PromptFacts`, `PromptOutcomes` | serial-shaped words and comparing them; coercion and the six guard rules; what an interpretation guarantees; what becomes of each control, and why |
| `RuleDraft` | a patching rule drafted from a statement, grounded in its words |
| `Scrub`, `Spellings`, `ScrubFacts`, `Lookalikes` | the scrubber's register and walk; what its placeholders look like; what it keeps over a trip; which values keep one placeholder |
| `Lockout` | the failed-login backoff that passwords and codes share |
| `PatchPolicy`, `PatchOutcomes` | a rule judged in Python and counted in SQL's three-valued logic; what each piece of it decides |

## Where the code and its promises part

Each of these is stated by a lemma with an input that shows it, beside the condition under which the promise
holds; each condition is exact.

- **Order of the islands.** The interval query ends in `ORDER BY subject_id, min(first_observed_at)` and nothing
  else, while two spans of one subject may open at one instant. The rows come back in one order exactly when no
  two stretches do (`IslandRuns.QueryIsDetermined`). In every order the cover is exact (`ExactCover.CoverIsExact`)
  and the report's sums close (`SumCloses`). Two promises hold in the spans' own order, and in the others only on
  a condition:
  - at every instant the cover answers as the spans do, exactly when no instant at which two stretches open has
    window time to show, that is, until the next start, or at the end until the latest last observation of
    those that tie (`TiedRows.CoverIsPointwise`); otherwise it can print "not observed" over an instant the spans
    witness (`TiedRows.TiesCanMisread`);
  - no interval assumes more than it holds, exactly when no stretch with a hole in it opens inside the window at
    the same instant as another (`TiedRows.CoverGapsAreBounded`); otherwise an interval of no length can carry the
    hole (`TiedRows.TiesCanOverstate`).
- **What the scalar diff cannot see.** A null reads as an absent leaf, an empty mapping has no leaves, and a
  dotted key meets a nested one (`ScalarDiff.HiddenDifferences`). The diff is empty exactly when the last leaf
  written under each path holds the same on both sides (`ScalarDiff.AnyDiffIsEmptyExactly`); without dotted keys,
  exactly when the documents agree up to nulls and the mappings left empty by them
  (`ScalarDiff.DiffIsEmptyExactly`).
- **Identity keys.** `_stable` gives a mapping and the list of its sorted pairs one key
  (`Identity.MappingMeetsItsPairs`); two identities are equal exactly up to that (`Identity.SameIdentityExactly`).
- **A purge and two clocks.** A close may be stamped before its open, by a slower clock. A purge that keeps N days
  leaves `alerts.opened_24h` alone, whatever the rows and the times, exactly when that skew is at most N - 1 days
  and a microsecond (`LatchHistory.PurgingKeepsTheCountExactly`). N may be 1 (`backend/app/core/config.py:379`);
  past that an open, a close and a purge lose a row of the trailing day (`LatchHistory.SkewedPurgeCanDropOne`).
- **A value that looks like a placeholder.** "Same value in, same placeholder out" holds, over every trip in which
  no kind makes more than N placeholders, exactly for the values that look like none of the first N of any kind
  (`Lookalikes.EqualValuesStayEqual`). A serial spelled like the second serial's placeholder loses its replacement
  in a trip of two (`ScrubFacts.LookalikeLosesItsReplacement`); an identifier of digits, or of lower-case hex, is
  safe until some kind reaches the number it says (`Lookalikes.FiguresLookMadeExactly`).
- **Different values, one placeholder.** Two values that look like none of the trip's placeholders are written apart
  unless as digits, hex or a position (`Lookalikes.DifferentValuesStayApart`). Digits repeat at a width w when the
  numbers agree modulo 10^w, hex modulo 16^w (`Spellings.WidthsRepeatExactly`), and the two kinds meet where the
  figures of one are the last of the other (`Spellings.DigitsMeetHexExactly`): "12" and "ab" both become "01"
  (`Spellings.FirstPlaceholdersMeet`).
- **Digits that `int` refuses.** `isdigit` admits characters, such as a superscript two, that `int` refuses, so a
  version or a proposed limit of them raises instead of reading as unreadable, exactly when every part is digits and
  `int` refuses one (`Evaluator.RefusedExactly`, `Evaluator.UnmetIsWitnessed`, `RuleDraft.Limit`).
- **The guard on a question not yet normalised.** Run on its own result, the guard changes nothing for exactly the
  questions whose one serial rule 3 would keep (`PromptFacts.GuardIsProjection`). A sanitised question is always one;
  a raw one whose serial ends in a letter with an accent typed as a second character is not
  (`PromptFacts.MarkedSerialRepeats`).
- **An exempt organization's rule.** The SQL clause does not look at `exempt` on the organization's rule, and
  `judge` does. `PatchPolicy.DialectsAgreeExactly`: the two agree on every row exactly when that rule is not an
  exempt one with a limit the clause reads. Rules read back from storage never are (`PatchPolicy.StoredRulesAgree`).

## Model

| member | source | states |
|---|---|---|
| IslandRuns.IslandsAreRuns | backend/app/baseline/intervals.py:58-78 | the groups of the query's running sum are the maximal runs of equal digests, a NULL first digest included |
| IslandRuns.GroupsAreRuns | backend/app/baseline/intervals.py:66-77 | the same over every prefix of the rows, group number by group number |
| IslandRuns.ObservationsAreKept | backend/app/baseline/intervals.py:74-77 | coalescing loses no observation: the islands' counts sum to the spans' |
| IslandRuns.QueryIsDetermined | backend/app/baseline/intervals.py:77 | the query's answer is determined if and only if no two stretches open at one instant |
| Intervals.Tail | backend/app/baseline/intervals.py:142-160 | the loop prints exactly the pieces of the tail, for any list of departure windows |
| ExactCover.TailIsContiguous | backend/app/baseline/intervals.py:142-160 | the tail's pieces are contiguous from the last observation to `as_of`, none with a gap beyond its length |
| ExactCover.TailAnswers | backend/app/baseline/intervals.py:142-160 | over the tail an instant is departed exactly where a departure window contains it, else not observed |
| Intervals.ClipAll | backend/app/baseline/intervals.py:191-196 | the clipping comprehension keeps, in order, exactly the pieces the window prints |
| Intervals.Cover | backend/app/baseline/intervals.py:163-196 | the method builds the cover the lemmas below are about |
| ExactCover.CoverIsExact | backend/app/baseline/intervals.py:163-196 | in whatever order tied rows come back, the intervals are contiguous, start at `window_from`, end at `as_of`, and their durations sum to the window |
| ExactCover.CoverShows | backend/app/baseline/intervals.py:163-196 | at each instant of the window exactly one interval answers, with what the rows show in the order they came |
| TiedRows.CoverGapsAreBounded | backend/app/baseline/intervals.py:171-194 | in the spans' own order every interval's longest gap is between zero and its duration; in every order the query may return, if and only if no stretch with a hole opens inside the window beside another |
| TiedRows.CoverIsPointwise | backend/app/baseline/intervals.py:58-196 | in the spans' own order one interval answers each instant with the state and digest the raw spans and windows give; in every order the query may return, if and only if no instant at which two stretches open has window time to show |
| TiedRows.TiesCanMisread | backend/app/baseline/intervals.py:77 | two stretches that open at one instant, returned reversed, print "not observed" over a witnessed instant |
| TiedRows.TiesCanOverstate | backend/app/baseline/intervals.py:177-187 | a stretch with a hole, returned before one that opens with it, prints no length and the hole as its longest gap |
| Stretches.CoverTellsStretches | backend/app/baseline/intervals.py:58-196 | the cover prints every maximal run of spans that reaches into the window, up to the next one, with its observation count, its first and last collection, and as longest gap the largest of zero, the holes between its spans, and the time from its last observation to the interval's end, held to what is printed of it; in every order of tied rows each interval tells all that of a run or is empty |
| Report.CoverSubject | backend/app/baseline/intervals.py:218-224 | one subject's entry: the cover of the rows the query returned for it, in the order it returned them, or none where it returned none |
| Report.SectionIntervals | backend/app/baseline/intervals.py:199-225 | one entry per subject the query returned rows for, in order |
| SumCloses.SectionsAgree | backend/app/baseline/intervals.py:58-78 | in whatever order tied rows come back, every section's ledger holds the subjects that have a span at or below `as_of`, and each one's intervals cover the window |
| Report.EvidenceReport | backend/app/baseline/report.py:161-196 | the nested loops print the report's rows; and the printed met, unmet, not observed and its parts, of every rule and device with a row and of the fleet, are the seconds of the returned rows in those states |
| RowFacts.RowsAreAnswers | backend/app/baseline/report.py:80-196 | the rows are, once each, every rule of the catalogue over every interval its own section has for every subject, with the state the interval calls for (departed, not observed, no digest, or the judge's answer), its floored ends and seconds, its longest gap and what it cites |
| RowFacts.RowsAreRead | backend/app/baseline/intervals.py:60-64 | the query reads, in order and unaltered, exactly the spans first observed by `as_of` |
| Report.ReadSections | backend/app/baseline/report.py:165-171 | one ledger per section, in the order the sections were first met |
| Report.ReportSection | backend/app/baseline/report.py:184-196 | one section's rows and additions |
| Report.ReportSubject | backend/app/baseline/report.py:185-196 | one subject's rows and additions |
| Report.ReportInterval | backend/app/baseline/report.py:186-196 | one row and one addition to each tally for each rule of the section |
| Tallies.StatesAreKept | backend/app/baseline/report.py:194-196 | each tally holds, state by state, the seconds of its rows |
| SumCloses.PairCloses | backend/app/baseline/report.py:43-56 | for each rule and device the rows' printed seconds are the floored window |
| SumCloses.RuleCloses | backend/app/baseline/report.py:108-118 | each `byRule` window is the floored window once per subject |
| SumCloses.DeviceCloses | backend/app/baseline/report.py:108-118 | each `byDevice` window is the floored window once per rule |
| SumCloses.FleetCloses | backend/app/baseline/report.py:184-196 | the fleet's window is the floored window times subjects times rules |
| SerialLane.StepKeeps | backend/app/ai/adapters.py:402-447 | every atomic step keeps one holder, an exact count of waiting interactive requests, and no forgotten sleeper |
| LaneRuns.Reachable | backend/app/ai/adapters.py:402-447 | so does every reachable state, under any interleaving |
| LaneRuns.NoLostWakeUp | backend/app/ai/adapters.py:409-434 | with the lane free and a request inside `acquire`, some request inside is runnable or holds a timer |
| LaneRuns.UntimedSleepersAreBlocked | backend/app/ai/adapters.py:415-428 | a sleeper without a timer waits for a holder, or is background behind an interactive request that can move |
| LaneRuns.TurnsGrantExactly | backend/app/ai/adapters.py:415-428 | in every run a turn grants if and only if nobody holds the lane, the request is interactive or no interactive one is inside, and its `minimum_interval` has passed since the last release; refused on a free lane before then it sleeps exactly until then, otherwise until notified |
| LaneRuns.FreeLaneGrants | backend/app/ai/adapters.py:409-428 | a request nobody outranks gets a free lane by at most three steps of its own, waiting until its interval since the last release has passed and no longer |
| LaneRuns.StepsMoveOne | backend/app/ai/adapters.py:409-434 | a step enters, leaves or turns its own request and at most wakes the others; who cancels or releases is gone |
| LaneRuns.LastFinishedIsLastRelease | backend/app/ai/adapters.py:430-434 | `last_finished` is the time of the last release of the run |
| LaneRuns.GrantsAreSpaced | backend/app/ai/adapters.py:415-419 | a grant finds no holder and comes at least the request's `minimum_interval` after the last release |
| LaneRuns.CallsNeverOverlap | backend/app/ai/adapters.py:440-447 | of two granted calls the first is released before the second is granted |
| LaneRuns.InteractiveFirst | backend/app/ai/adapters.py:412-419 | while an interactive request waits only interactive requests are granted |
| SerialLane.Condition.constructor | backend/app/ai/adapters.py:403-407 | a new lane is the state machine's start |
| SerialLane.Condition.Begin | backend/app/ai/adapters.py:411-413 | entering `acquire` is the step `Enter` |
| SerialLane.Condition.Turn | backend/app/ai/adapters.py:415-428 | one turn of the waiting loop is the step `Evaluate`, and says whether it granted |
| SerialLane.Condition.Abandon | backend/app/ai/adapters.py:425-428 | leaving by cancellation is the step `Cancel` |
| SerialLane.Condition.Finish | backend/app/ai/adapters.py:430-434 | `release` is the step `Release` |
| Flatten.FlattenTo | backend/app/changes/diff.py:44-57 | the recursive loop collects exactly the document's leaves under a prefix, later fields over earlier ones |
| Flatten.LeavesAt | backend/app/changes/diff.py:44-57 | without dotted keys a path is a leaf exactly when following its segments leads to one, with that value |
| Flatten.UnflattenRebuilds | backend/app/changes/diff.py:44-57 | leaves that tell a document's paths rebuild the mapping it means |
| ScalarDiff.FlattenRoundTrip | backend/app/changes/diff.py:44-57 | the inverse rebuilds every document without dotted keys and empty mappings from its leaves |
| ScalarDiff.DiffScalar | backend/app/changes/diff.py:60-66 | one change, with both sides, for exactly the paths that read differently, in path order |
| ScalarDiff.ChangesAreDetermined | backend/app/changes/diff.py:63-66 | that leaves one list: the changes and their order are determined by the two sides |
| ScalarDiff.DiffIsEmptyExactly | backend/app/changes/diff.py:60-66 | without dotted keys: no change if and only if the documents agree up to nulls and emptied mappings |
| ScalarDiff.AnyDiffIsEmptyExactly | backend/app/changes/diff.py:44-66 | whatever the keys: no change if and only if the last leaf written under each path holds the same on both sides |
| ScalarDiff.CanonicalDiffIsEquality | backend/app/changes/diff.py:60-66 | on canonical documents: no change if and only if they are equal |
| ScalarDiff.HiddenDifferences | backend/app/changes/diff.py:44-66 | a null, an empty mapping and a dotted key each hide a difference |
| ScalarDiff.ChangesApply | backend/app/changes/diff.py:60-66 | applying the changes to the old leaves gives the new leaves |
| ScalarDiff.ChangesRevert | backend/app/changes/diff.py:60-66 | exchanging the documents exchanges every change's sides, which lead back |
| Identity.SameIdentityExactly | backend/app/changes/diff.py:73-82 | two identity keys are equal if and only if the identity fields are, mappings read as lists of their pairs |
| Identity.MappingMeetsItsPairs | backend/app/changes/diff.py:77-82 | a mapping and the list of its pairs, though unequal, share a key |
| ChangeList.GoneExactly | backend/app/changes/diff.py:92-95 | an entry went exactly when it is its side's last entry of a digest the other side lacks; no digest goes twice |
| EntryDiff.PairUp | backend/app/changes/diff.py:100-153 | within each identity the n-th entry that went meets the n-th that came, the rest are removed or added |
| PairingFacts.PairingIsDetermined | backend/app/changes/diff.py:100-153 | that pairing leaves one multiset of matches |
| PairingFacts.SidesAreUsedOnce | backend/app/changes/diff.py:97-153 | removals and updates use up what went, additions and updates what came, each entry once |
| PairingFacts.UpdatesAreMaximal | backend/app/changes/diff.py:97-153 | per identity: min(went, came) updates, and the excess is all removed or all added |
| PairingFacts.ExchangingSidesFlips | backend/app/changes/diff.py:85-153 | exchanging the arguments gives the same matches turned round |
| StableSort.SortIsStable | backend/app/changes/diff.py:155-156 | the sort permutes, orders by key, and keeps the order of equal keys |
| ChangeList.DiffEntries | backend/app/changes/diff.py:85-157 | the list is every match written out, sorted by kind of change and then identity |
| ChangeList.UpdatesNameWhatChanged | backend/app/changes/diff.py:108-128 | an update names exactly the fields outside the identity that differ, and is the partner's in identity and label |
| ChangeList.NothingChangedExactly | backend/app/changes/diff.py:92-95 | no match if and only if the two sides hold the same digests |
| ListFacts.ListTells | backend/app/changes/diff.py:100-157 | on the list returned: every change stands for an entry that went, one that came, or two of one identity, with their documents and identity, the label of the one that came unless it has none, and exactly the fields outside the identity in which an update's sides differ |
| ListFacts.ListIsOrdered | backend/app/changes/diff.py:154-157 | removals stand before updates before additions, and within one of these by the identity as written |
| ListFacts.ListIsDetermined | backend/app/changes/diff.py:154-157 | the order is deterministic: where identities rendered alike are one, the two sides leave a single list |
| ListFacts.ListConserves | backend/app/changes/diff.py:97-157 | on the list returned: a document is the older side of as many changes as entries with it went, and the newer side of as many as came |
| ListFacts.ListIsMaximal | backend/app/changes/diff.py:97-157 | on the list returned, per identity: min(went, came) updates, and the excess all removed or all added |
| ListFacts.ListIsEmptyExactly | backend/app/changes/diff.py:92-157 | the list returned is empty if and only if the two sides hold the same digests |
| Alerts.CurrentByHash | backend/app/alerts/service.py:159-164 | exactly the identities found, each with the first row that has it |
| Alerts.AlertTable.SyncNewAppLatches | backend/app/alerts/service.py:138-215 | the returned delta, and the rows after the insert and the close it leads to |
| Alerts.AlertTable.InsertLatches | backend/app/alerts/service.py:169-197 | the insert drops exactly the values that meet an open row |
| Alerts.AlertTable.CloseDepartedDeviceLatches | backend/app/alerts/service.py:218-240 | every open row of the departed devices is closed, no other row changes, and the count is that of the rows changed |
| Alerts.AlertTable.PurgeClosedAlerts | backend/app/alerts/service.py:243-257 | exactly the rows closed before the cutoff go, and are counted |
| LatchHistory.StatementKeeps | backend/app/alerts/service.py:169-257 | each statement keeps one open row per kind, device and app, and a reason on exactly the closed rows |
| LatchHistory.NeverTwoOpen | backend/app/alerts/service.py:169-257 | so does any interleaving of the statements of any number of writers |
| LatchHistory.ClosesExactly | backend/app/alerts/service.py:199-238 | each close touches exactly the open rows it is for and writes its time, run and reason on them, nothing else |
| LatchHistory.OpenIsHistory | backend/app/alerts/service.py:92-128 | a latch is open exactly when a read of a device that is not new found its app, the last read before had found some app and not this one, and every read since has found it with no departure in between; open rows are part of the inventory |
| RowHistory.RowsTellHistory | backend/app/alerts/service.py:138-240 | every row, open or closed, was opened by the read its app arrived at, under the name and bundle that read first gave; it is spared since, or closed by the first event that did not spare it, with that event's time, run and reason |
| RowHistory.PrimingOpensNothing | backend/app/alerts/service.py:100-126 | a read of a new device, or of one whose last read found no app, opens no row, whatever it finds |
| LatchHistory.SameIdentitiesChangeNothing | backend/app/alerts/service.py:20-23 | a read of the same identities, whatever their versions, changes no row |
| LatchHistory.ClosingKeepsTheCount | backend/app/alerts/service.py:199-213 | neither close changes the trailing day's count |
| LatchHistory.PurgedIsPart | backend/app/alerts/service.py:253-257 | a purge keeps, in order, exactly the rows that are open or closed at or after the cutoff |
| LatchHistory.PurgingKeepsTheCountExactly | backend/app/alerts/service.py:243-257 | a purge leaves the trailing day's count alone, whatever the rows, the purge's time and a capture no earlier, if and only if a close precedes its open by no more than the retention less a day, and a microsecond |
| LatchHistory.SkewedPurgeCanDropOne | backend/app/alerts/service.py:243-257 | for every retention and every larger skew, an open, a close and a purge that drop a row of the trailing day |
| LatchHistory.HistoryKeepsTheCount | backend/app/core/posture.py:735-742 | while the clock does not go back, closes and purges of a day or more leave `alerts.opened_24h` alone |
| Evaluator.PartsSplit | backend/app/baseline/evaluator.py:124 | splitting a version at its dots: joined again the parts are the text, and none holds a dot |
| Evaluator.VersionExactly | backend/app/baseline/evaluator.py:121-127 | a text has exactly the components `int` reads in its parts, where all are digits |
| Evaluator.RefusedExactly | backend/app/baseline/evaluator.py:121-127 | a version raises if and only if every part of it is digits and `int` refuses one |
| Evaluator.VersionsAreOneScale | backend/app/baseline/evaluator.py:111-127 | versions compare as one total order by components; an unreadable one is on neither side; a comparison raises if and only if either side is digits `int` refuses |
| Evaluator.NotAtLeastIsBelow | backend/app/baseline/evaluator.py:111-118 | a version fails a floor if and only if it is lower at the first component they differ in, or is begun by it |
| Evaluator.UnmetIsWitnessed | backend/app/baseline/evaluator.py:60-149 | an answer calls a rule unmet if and only if the version is the contract's and the last rule of that id to read the section has a hashed field the document holds, collected, that contradicts its operand; it fails if and only if a rule that reaches its operator does not know it, or compares digits `int` refuses |
| Evaluator.MetIsWitnessed | backend/app/baseline/evaluator.py:60-149 | an answer calls a rule met if and only if the version is the contract's and the last rule of that id to read the section has a hashed field, held and collected, that agrees with its operand; every other rule of the section that is not unmet is not reported |
| Evaluator.CollectedExactly | backend/app/baseline/evaluator.py:139-145 | a field is collected with a value exactly where its path leads, mapping by mapping, to a leaf of the contract and in the document to that value, which is not the mark of a field not collected |
| Evaluator.RefusalsExactly | backend/app/baseline/evaluator.py:70-77 | exactly an unknown section and a list section are refused, as what they are, and no failing call touches the cache |
| Evaluator.RaisingTheFloorKeepsUnmet | backend/app/baseline/evaluator.py:106-149 | raising a version floor turns no unmet rule met |
| Evaluator.VerdictsCoverTheRules | backend/app/baseline/evaluator.py:130-137 | every rule of the section has a verdict and no other; under another contract version each is not reported |
| Evaluator.Memo.Evaluate | backend/app/baseline/evaluator.py:60-89 | a refused section raises first and leaves the cache; a hit moves to the end; a miss is appended and the oldest dropped past the limit |
| Evaluator.Memo.ClearCache | backend/app/baseline/evaluator.py:92-95 | every memoised verdict is forgotten |
| Evaluator.CacheIsTransparent | backend/app/baseline/evaluator.py:53-89 | over any trace in which a key names one document, every call answers what it would with no cache |
| LeastRecent.RecencyIsByLastUse | backend/app/baseline/evaluator.py:81-87 | the recency list holds exactly the keys used since the last clear, once each, by last use |
| LeastRecent.CacheIsNewest | backend/app/baseline/evaluator.py:53-87 | the cache's keys are the newest 4096 of it, the key just used last |
| Sanitise.PlainLine | backend/app/ai/changes_prompt.py:308-318 | the loop keeps visible text, which is composed and then joined to one line with single spaces |
| Sanitise.WhitespaceParts | backend/app/ai/changes_prompt.py:308-318 | what any whitespace parts stays parted, by one space where both sides hold a word; a dropped character leaves nothing behind |
| Sanitise.ScannerScans | backend/app/ai/changes_prompt.py:321-340 | every control token of any family lies in the text, holds no space, and is one whatever follows |
| Sanitise.TokensExactly | backend/app/ai/changes_prompt.py:321-340 | a text begins with a control token exactly when some first part of it is one between bars or one of the ten fixed ones |
| OnePass.WithoutHasNone | backend/app/ai/changes_prompt.py:332-340 | one leftmost pass leaves no token, whatever its removals bring together |
| OnePass.TidyMakesNone | backend/app/ai/changes_prompt.py:343-351 | nor does closing up the gaps make one |
| OnePass.TidyExactly | backend/app/ai/changes_prompt.py:318 | splitting and joining leaves a line alone exactly when it is tidy |
| Sanitise.SanitisedIsClean | backend/app/ai/changes_prompt.py:354-360 | for every input: no token, no dropped character, normalisation form C, single spaces, at most 500 characters |
| Sanitise.SanitiseExactly | backend/app/ai/changes_prompt.py:354-360 | a question is unchanged if and only if it is clean already; sanitising twice is sanitising once |
| Serials.SerialishExactly | backend/app/ai/changes_prompt.py:714-715 | a serial has from 8 to 14 capitals and digits, at least two of each |
| Serials.SerialsStand | backend/app/ai/changes_prompt.py:714-720 | what is found is serial-shaped and stands between word boundaries |
| Serials.StandingSerialsAreFound | backend/app/ai/changes_prompt.py:714-720 | every serial-shaped word between word boundaries is found |
| Serials.CompactOccurs | backend/app/ai/changes_prompt.py:723-726 | a word that normalises by itself where it stands is a part of its text when only letters and digits are compared |
| Prompt.Coerce | backend/app/ai/changes_prompt.py:537-551 | a reply object read control by control, with a repair for each drop |
| PromptOutcomes.CoercedExactly | backend/app/ai/changes_prompt.py:449-551 | each control holds exactly what the reply says for it, where the page allows it: a name of at most 64 allowed characters, a word of its own, a section by name or key |
| PromptOutcomes.NoteExactly | backend/app/ai/changes_prompt.py:526-534 | the note is the reply's text as one plain line cut to 300 characters, unless empty or a word for none |
| PromptOutcomes.UselessKeysExactly | backend/app/ai/changes_prompt.py:403-439 | a key the page has no use for is remarked on once, widening exactly where it held something; a refusal key that plainly says no is passed over |
| PromptFacts.NothingIsLostQuietly | backend/app/ai/changes_prompt.py:414-551 | coercion widens if and only if something the reply said is not in the filters |
| Prompt.Guard | backend/app/ai/changes_prompt.py:743-830 | the step-by-step method is the six rules in order |
| PromptOutcomes.GuardedExactly | backend/app/ai/changes_prompt.py:743-830 | each rule acts exactly on its ground in the question or the page: when a name, a Search, a note and a change survive, when a serial is filled in, which repairs are added in which order, and which earlier one no longer widens |
| PromptFacts.GuardIsProjection | backend/app/ai/changes_prompt.py:743-830 | the guard run on its own result changes no filter and no note and adds no repair, whatever the answer, if and only if rule 3 would keep the question's one serial; in a question in normalisation form C it does |
| PromptFacts.MarkedSerialRepeats | backend/app/ai/changes_prompt.py:711-726 | a raw question whose serial ends in a letter and a combining accent, on which the guard repeats its repairs |
| PromptFacts.SearchIsTheOperators | backend/app/ai/changes_prompt.py:743-861 | a repair that still widens Search means Search is empty; a serial-shaped Search is in the question |
| PromptFacts.VocabularyIsClosed | backend/app/ai/changes_prompt.py:82-126 | whatever the reply, every filter is unset, a word of the page's, or a short name of allowed characters, and the start is the question's |
| PromptFacts.Interpret | backend/app/ai/changes_prompt.py:833-861 | refusal first, then no answer, then coercion and the guard on the sanitised question |
| PromptOutcomes.InterpretedExactly | backend/app/ai/changes_prompt.py:848-853 | a refusal, and a reply with none of the six keys, leave everything unset and say which they are; only another reply is read |
| PromptOutcomes.ReadExactly | backend/app/ai/changes_prompt.py:854-861 | what the guard then leaves, with the start the question's words ask for, which stands for the note's dates exactly where the words name no end |
| PromptFacts.RawOrSanitisedIsTheSame | backend/app/ai/changes_prompt.py:833-836 | the raw question and the sanitised one are interpreted alike |
| RuleDraft.WholeDaysIsLeastCover | backend/app/ai/patch_policy_rules.py:188-197 | hours round up to the least number of days that covers them |
| RuleDraft.StatedExactly | backend/app/ai/patch_policy_rules.py:188-197 | words state a number of days from 0 to 3650: the least that covers a length of time in them, 14 for a fortnight, 0 for immediately |
| RuleDraft.FindSpecialDays | backend/app/ai/patch_policy_rules.py:230-242 | a time is severe, or otherwise special, exactly by which clauses state it and that no ordinary one does |
| RuleDraft.SpecialExactly | backend/app/ai/patch_policy_rules.py:200-206 | a time is special if and only if some clause states it and every clause that does names a special case |
| RuleDraft.ProposesExactly | backend/app/ai/patch_policy_rules.py:290-308 | a proposal counts exactly where the reply gives the number, as one, as a float equal to it or as digits, in bounds and stated; reading one raises exactly on digits `int` refuses |
| RuleDraft.Limit | backend/app/ai/patch_policy_rules.py:290-308 | a limit is kept if and only if it is a whole number in bounds that the statement states; every other proposal is remarked on, but for a text of digits `int` refuses, which raises |
| RuleDraft.OrdinaryLimit | backend/app/ai/patch_policy_rules.py:358-373 | the ordinary box holds n if and only if n is proposed, stated and not special |
| RuleDraft.SevereLimit | backend/app/ai/patch_policy_rules.py:375-405 | the severe box holds n if and only if n is proposed, the only severe number, and not above the ordinary one |
| RuleDraft.Coerce | backend/app/ai/patch_policy_rules.py:354-417 | all three boxes, exactly the remarks they call for, and the codes |
| RuleDraft.KeptExactly | backend/app/ai/patch_policy_rules.py:340-347 | exactly the codes that are named and borne out, in the list's own order |
| RuleDraft.DraftIsGrounded | backend/app/ai/patch_policy_rules.py:354-417 | no box holds a number the statement does not give for it, and the severe limit is strictly the shorter |
| Scrub.Capture.MintOne | backend/scripts/capture_jamf_mobile_device.py:155-168 | the placeholder and the register after it |
| Scrub.Capture.WalkNode | backend/scripts/capture_jamf_mobile_device.py:170-187 | the redacted copy and the register after a whole payload |
| Scrub.Capture.WalkValue | backend/scripts/capture_jamf_mobile_device.py:175-187 | a leaf minted, passed through, or swept and listed |
| ScrubFacts.WalkKeeps | backend/scripts/capture_jamf_mobile_device.py:145-187 | a walk leaves every replacement a fixed point and only adds to the register |
| ScrubFacts.ReplacementsSettle | backend/scripts/capture_jamf_mobile_device.py:145-168 | over any trip: seen(seen(x)) = seen(x), a placeholder is fixed for ever, and a replacement changes only by its value becoming a placeholder |
| ScrubFacts.EqualMintsAgree | backend/scripts/capture_jamf_mobile_device.py:155-168 | two calls for one value, at any two times and by any two rules, agree if and only if the value was not made a placeholder by then, or is its own |
| Lookalikes.UnlikeValuesStayEqual | backend/scripts/capture_jamf_mobile_device.py:136-187 | a value that looks like none of the placeholders the trip has made is written as one placeholder wherever rules name it, whatever their kinds and the documents |
| Lookalikes.SweepReplaces | backend/scripts/capture_jamf_mobile_device.py:178-186 | so is one that a sweep finds in text: every match is written as the register's placeholder for it |
| Lookalikes.LookalikesLoseTheirReplacement | backend/scripts/capture_jamf_mobile_device.py:136-168 | for every value that looks like some kind's n-th placeholder there is a trip in which no kind makes more than n, and which writes it two ways |
| Lookalikes.EqualValuesStayEqual | backend/scripts/capture_jamf_mobile_device.py:136-187 | for every N: equal values get equal placeholders over every trip in which no kind makes more than N, if and only if the value looks like none of the first N of any kind |
| Lookalikes.FiguresLookMadeExactly | backend/scripts/capture_jamf_mobile_device.py:140-142 | an identifier of digits or lower-case hex looks like one of the first N if and only if the number it says is at most N |
| Lookalikes.DifferentValuesStayApart | backend/scripts/capture_jamf_mobile_device.py:233 | two different values that look like none of the trip's placeholders are never written alike under kinds that spell their number out |
| Spellings.SpelledOnce | backend/scripts/capture_jamf_mobile_device.py:136-142 | a placeholder that spells its number out is made by no other kind and no other number |
| Spellings.PositionsKeepTheirType | backend/scripts/capture_jamf_mobile_device.py:137-138 | a position has one placeholder, a text for a text and a number for a number |
| Spellings.WidthsRepeatExactly | backend/scripts/capture_jamf_mobile_device.py:140-141 | digits, or hex, make one placeholder of two numbers if and only if the originals are as wide and the numbers agree modulo the base to that width |
| Spellings.DigitsMeetHexExactly | backend/scripts/capture_jamf_mobile_device.py:140-141 | when a digits placeholder is a hex one |
| Spellings.FirstPlaceholdersMeet | backend/scripts/capture_jamf_mobile_device.py:140-141 | the first of both kinds, for values of two characters, are "01" |
| ScrubFacts.LookalikeLosesItsReplacement | backend/scripts/capture_jamf_mobile_device.py:136-168 | a serial spelled like the second serial's placeholder changes its replacement |
| ScrubFacts.RewalkingChangesNothing | backend/scripts/capture_jamf_mobile_device.py:145-147 | walking an output again, at once or later in the trip, changes no keyed leaf and no shape |
| ScrubFacts.WhatIsLeftIsHeld | backend/scripts/capture_jamf_mobile_device.py:178-187 | text left under a key no rule names is trivial or listed to be read |
| Lockout.LoginAttempts.Login | backend/app/api/auth.py:256-330 | a password: blocked and unchanged, refused and counted, accepted and cleared, or, for an account with a second factor, challenged and unchanged, since nothing commits the deletion |
| Lockout.LoginAttempts.TryCode | backend/app/api/auth.py:358-414 | a code: unknown challenge and unchanged, blocked and unchanged, refused and counted on the same row, or accepted and cleared |
| Lockout.LoginAttempts.RecordFailure | backend/app/api/auth.py:106-137 | the row after a failure |
| Lockout.LoginAttempts.ClearFailures | backend/app/api/auth.py:140-143 | a success deletes the row |
| Lockout.FailuresAreSpaced | backend/app/api/auth.py:60-143 | over any run of passwords and codes a key's row is its failures since it was last accepted, and from the fifth on they are at least the backoff apart |
| Lockout.OutcomesExactly | backend/app/api/auth.py:256-414 | a try is blocked exactly while the pause after at least five failures runs, and otherwise judged by what was given; a code for no standing challenge is turned away first |
| Lockout.PasswordAloneClearsNothing | backend/app/api/auth.py:297-303 | the right password of an account with a second factor never starts its count again: until a code is right every refusal counts, and the pauses stand between the codes tried |
| Lockout.BlockedChangesNothing | backend/app/api/auth.py:256-303 | a blocked try, a challenge and an unknown one move nothing, and none is blocked before the fifth failure |
| Lockout.ExponentCapIsSilent | backend/app/api/auth.py:63-64 | the cap on the exponent never changes the backoff |
| Lockout.GuessingIsSlow | backend/app/api/auth.py:60-137 | failure N >= 11 comes at least 3780 + 3600 * (N - 11) seconds after the fifth |
| PatchPolicy.OutExactly | backend/app/api/jamf_patch.py:84-125 | the clause is TRUE exactly when the build is behind, not exempt, governed by a rule, and past a limit of it |
| PatchOutcomes.KleeneExactly | backend/app/api/jamf_patch.py:109-125 | AND is the lesser of its sides and OR the greater, with NULL between false and true |
| PatchOutcomes.SevereExactly | backend/app/api/jamf_patch.py:96-107 | a build is severe exactly where its answer is served by the epoch answering now and counts a critical or high finding, and never unknown |
| PatchOutcomes.JudgedExactly | backend/app/mdm/patch/policy.py:189-217 | a build is not judged exactly where no rule with a limit governs it or its state is none of the three, and out exactly where it is behind and past a limit |
| PatchPolicy.ClauseIsJudgement | backend/app/mdm/patch/policy.py:189-217 | for every row, NULLs and all, the clause is TRUE exactly when the judgement is `out` |
| PatchPolicy.DialectsAgreeExactly | backend/app/api/jamf_patch.py:109-125 | the two agree on every row if and only if the organization's rule is not an exempt one with a limit the clause reads |
| PatchPolicy.StoredRulesAgree | backend/app/mdm/patch/policy.py:98-146 | rules read back from storage always agree, and never give a severe build longer |
| PatchOutcomes.StoredRuleExactly | backend/app/mdm/patch/policy.py:98-121 | a stored rule keeps exactly its limits in bounds, the severe one only where it is no longer than the ordinary one, and is none exactly where it then says nothing |
| PatchOutcomes.StoredRulesExactly | backend/app/mdm/patch/policy.py:132-146 | the rules read back are each title's own, and the organization's where it can judge |
| PatchOutcomes.SeverityIsReadExactly | backend/app/mdm/patch/policy.py:162-169 | the corpus is read exactly where some title is judged with a severe limit |
| PatchPolicy.CountsAreNested | backend/app/api/jamf_patch.py:61-81 | distinct devices out of policy are among those behind, which are among all |
| PatchPolicy.NoRuleFindsNone | backend/app/api/jamf_patch.py:128-142 | skipping the query when no rule judges is asking it and finding none |
| PatchOutcomes.AskedExactly | backend/app/api/jamf_patch.py:128-136 | with rules read back from storage the query is skipped exactly where no build whatever could be out |

## Left out

- Routes, sessions, row-level security, audit and log calls: table rows are sequences, a statement is one step,
  and the lookups around it (departure windows, who has departed, the previous inventory) are inputs.
- Unicode: which characters are whitespace, dropped, digits, letters, or may stand in a name, NFC, and NFKC with case
  folding are parameters. Required of NFC: it is a fixed form, adds no hidden character, its parts are in the form,
  and nothing composes across a space; of NFKC: a serial-shaped word of NFC text normalises by itself.
- Regular expressions: the control tokens and the serial shape are modelled; the caveat words, the durations and
  cases of a policy statement, and the scrubber's sweeps are parameters.
- Lookalikes.EqualValuesStayEqual: the key tables and `str` are parameters; that the tables name every kind
  somewhere, and that `str` leaves a text alone and writes no other value as nothing, are its requirements.
- The page's fifteen section names and its generic words are a parameter; the levels, the changes and the six
  reply keys are the page's own.
- Reading a start out of a question's words (`resolve_since`) and out of time zones: its answer is a parameter.
- SQL's interval arithmetic across a daylight-saving change: a day is 24 hours in both dialects of the patching
  rule.
- Days rounded to two decimals in the report, its identities and headers, and of a row the witnessed sentence, the
  see-also, the contract version and `departedAt`: the sums are over whole seconds.
- Report.EvidenceReport: which verdict a rule gives a document is a parameter, a function of rule and digest.
- Evaluator.Memo.Evaluate: answers are values, so the copy the code hands out to guard against aliasing is not
  modelled.
- The scrubber's key tables (`_kind`), the text of unkeyed leaves when an output is walked again, and equality of
  floats that are not numbers.
- ScrubFacts.RewalkingChangesNothing: says nothing of text under keys no rule names, because the sweeps' patterns
  are parameters.
- Lockout.LoginAttempts.Login: two tries at once may lose an increment, which the code accepts; tries are taken
  one after another.
- ChangeList.DiffEntries: how `repr` writes an identity is a parameter; a value the identity key cannot hash is
  not modelled.
- The wording of repairs, prompts and messages: only whether a repair exists, whether it widens, and which control
  or box it is about.
- HTTP, DNS and TLS around the serial lane, the sharing log, what makes a sign-in code right, the corpus and the catalog
  sync, the web pages: no part of the algorithms above.
