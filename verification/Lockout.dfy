/** The failed-login lockout: a count per address and client that passwords and codes share, a pause that
    doubles, and what they add up to for somebody who keeps trying. Tries are taken one after another. */
module Lockout {
  import opened Prelude

  const THRESHOLD := 5
  const BASE_SECONDS := 60
  const MAX_SECONDS := 3600
  const MAX_EXPONENT := 16

  /** An email address as it is looked up, and the client it was tried from. */
  datatype Key = Key(email: string, ip: string)

  datatype Attempt = Attempt(failureCount: nat, lastFailureAt: Instant, lockedUntil: Option<Instant>)

  type Attempts = map<Key, Attempt>

  function PowerOfTwo(exponent: nat): (power: nat)
    ensures power > 0
  {
    if exponent == 0 then 1 else 2 * PowerOfTwo(exponent - 1)
  }

  /** The pause after the `count`-th failure, in seconds. */
  function Backoff(count: nat): int
    requires count >= THRESHOLD
  {
    Min(BASE_SECONDS * PowerOfTwo(Min(count - THRESHOLD, MAX_EXPONENT)), MAX_SECONDS)
  }

  function LockAfter(count: nat, at: Instant): Option<Instant> {
    if count >= THRESHOLD then Some(at + Backoff(count) * SECOND) else None
  }

  /** What is tried: the password of an account that may have a second factor, or a code. A code is for a
      sign-in challenge, or for new recovery codes; `known` says that the challenge and the factor stand. */
  datatype Step =
    | Password(right: bool, enrolled: bool)
    | Code(known: bool, right: bool)

  /** `recordedAt` is the clock when a failure is recorded; `now` is read before anything is checked. */
  datatype Try = Try(key: Key, now: Instant, recordedAt: Instant, step: Step)

  /** `Challenged` asks for a code; `Unknown` is a code for no standing challenge or factor. */
  datatype Outcome = Blocked | Refused | Challenged | Unknown | Accepted

  predicate IsLocked(attempts: Attempts, key: Key, now: Instant) {
    key in attempts && attempts[key].lockedUntil.Some? && attempts[key].lockedUntil.value > now
  }

  /** `_record_failure`, at the time it reads its own clock. */
  function Recorded(attempts: Attempts, key: Key, at: Instant): Attempts {
    var before := if key in attempts then attempts[key] else Attempt(0, at, None);
    var count := before.failureCount + 1;
    var lock := if count >= THRESHOLD then LockAfter(count, at) else before.lockedUntil;
    attempts[key := Attempt(count, at, lock)]
  }

  class LoginAttempts {
    var attempts: Attempts

    constructor ()
      ensures attempts == map[]
    {
      attempts := map[];
    }

    method RecordFailure(key: Key, now: Instant)
      modifies this
      ensures attempts == Recorded(old(attempts), key, now)
    {
      var attempt := if key in attempts then attempts[key] else Attempt(0, now, None);
      attempt := attempt.(failureCount := attempt.failureCount + 1, lastFailureAt := now);
      if attempt.failureCount >= THRESHOLD {
        var exponent := Min(attempt.failureCount - THRESHOLD, MAX_EXPONENT);
        var backoff := Min(BASE_SECONDS * PowerOfTwo(exponent), MAX_SECONDS);
        attempt := attempt.(lockedUntil := Some(now + backoff * SECOND));
      }
      attempts := attempts[key := attempt];
    }

    method ClearFailures(key: Key)
      modifies this
      ensures attempts == old(attempts) - {key}
    {
      if key in attempts {
        attempts := attempts - {key};
      }
    }

    /** The password step. The challenge is answered without a commit, so the session takes the deletion
        back when it closes. */
    method Login(key: Key, now: Instant, recordedAt: Instant, right: bool, enrolled: bool) returns (outcome: Outcome)
      modifies this
      ensures (outcome, attempts) == Tried(old(attempts), Try(key, now, recordedAt, Password(right, enrolled)))
    {
      if IsLocked(attempts, key, now) {
        return Blocked;
      }
      if !right {
        RecordFailure(key, recordedAt);
        return Refused;
      }
      var committed := attempts;
      ClearFailures(key);
      if enrolled {
        attempts := committed;
        return Challenged;
      }
      outcome := Accepted;
    }

    /** A code, at sign-in or for new recovery codes. */
    method TryCode(key: Key, now: Instant, recordedAt: Instant, known: bool, right: bool) returns (outcome: Outcome)
      modifies this
      ensures (outcome, attempts) == Tried(old(attempts), Try(key, now, recordedAt, Code(known, right)))
    {
      if !known {
        return Unknown;
      }
      if IsLocked(attempts, key, now) {
        return Blocked;
      }
      if !right {
        RecordFailure(key, recordedAt);
        return Refused;
      }
      ClearFailures(key);
      outcome := Accepted;
    }
  }

  // --- over a run of tries -----------------------------------------------------------------

  function Tried(attempts: Attempts, one: Try): (Outcome, Attempts) {
    if one.step.Code? && !one.step.known then (Unknown, attempts)
    else if IsLocked(attempts, one.key, one.now) then (Blocked, attempts)
    else if !one.step.right then (Refused, Recorded(attempts, one.key, one.recordedAt))
    else if one.step.Password? && one.step.enrolled then (Challenged, attempts)
    else (Accepted, attempts - {one.key})
  }

  function After(tries: seq<Try>, n: nat): Attempts
    requires n <= |tries|
  {
    if n == 0 then map[] else Tried(After(tries, n - 1), tries[n - 1]).1
  }

  function OutcomeOf(tries: seq<Try>, i: nat): Outcome
    requires i < |tries|
  {
    Tried(After(tries, i), tries[i]).0
  }

  /** A failure is recorded no earlier than its try began. */
  predicate InOrder(tries: seq<Try>) {
    forall i :: 0 <= i < |tries| ==> tries[i].now <= tries[i].recordedAt
  }

  /** When the failures counted against a key since its last success were recorded, oldest first. */
  function FailureTimes(tries: seq<Try>, n: nat, key: Key): seq<Instant>
    requires n <= |tries|
  {
    if n == 0 then []
    else
      var earlier := FailureTimes(tries, n - 1, key);
      if tries[n - 1].key != key then earlier
      else
        match OutcomeOf(tries, n - 1)
        case Accepted => []
        case Refused => earlier + [tries[n - 1].recordedAt]
        case _ => earlier
  }

  /** What a stored row says of the failures it counts. */
  predicate RowTells(attempts: Attempts, key: Key, times: seq<Instant>) {
    if times == [] then key !in attempts
    else
      var last := times[|times| - 1];
      key in attempts && attempts[key] == Attempt(|times|, last, LockAfter(|times|, last))
  }

  /** Consecutive failures from the fifth on are at least the pause after the first of them apart. */
  predicate Spaced(times: seq<Instant>) {
    forall k :: THRESHOLD <= k < |times| ==> IsSpaced(times, k)
  }

  predicate IsSpaced(times: seq<Instant>, k: nat)
    requires THRESHOLD <= k < |times|
  {
    times[k] - times[k - 1] >= Backoff(k) * SECOND
  }

  /** Over any run of tries against any number of keys: a key's row is exactly its failures since its
      last success, and those are spaced by the pauses between them. */
  lemma {:induction false} FailuresAreSpaced(tries: seq<Try>, n: nat, key: Key)
    requires n <= |tries| && InOrder(tries)
    ensures RowTells(After(tries, n), key, FailureTimes(tries, n, key))
    ensures Spaced(FailureTimes(tries, n, key))
  {
    if n > 0 {
      FailuresAreSpaced(tries, n - 1, key);
      FailureStep(tries, n, key);
    }
  }

  lemma {:induction false} SpacedOneMore(times: seq<Instant>, next: Instant)
    requires Spaced(times)
    requires |times| >= THRESHOLD ==> next - times[|times| - 1] >= Backoff(|times|) * SECOND
    ensures Spaced(times + [next])
  {
    var more := times + [next];
    forall k | THRESHOLD <= k < |more| ensures IsSpaced(more, k) {
      if k < |times| {
        assert IsSpaced(times, k);
      }
    }
  }

  /** A failure comes after the pause its row asks for. */
  lemma {:induction false} PauseIsOver(attempts: Attempts, times: seq<Instant>, one: Try)
    requires RowTells(attempts, one.key, times) && Tried(attempts, one).0 == Refused && one.now <= one.recordedAt
    ensures |times| >= THRESHOLD ==> one.recordedAt - times[|times| - 1] >= Backoff(|times|) * SECOND
  {
  }

  lemma {:induction false} RecordedTells(attempts: Attempts, times: seq<Instant>, one: Try)
    requires RowTells(attempts, one.key, times)
    ensures RowTells(Recorded(attempts, one.key, one.recordedAt), one.key, times + [one.recordedAt])
  {
  }

  lemma {:induction false} OthersTell(attempts: Attempts, key: Key, times: seq<Instant>, one: Try)
    requires RowTells(attempts, key, times) && key != one.key
    ensures RowTells(Tried(attempts, one).1, key, times)
  {
  }

  lemma {:induction false} FailureStep(tries: seq<Try>, n: nat, key: Key)
    requires 0 < n <= |tries| && InOrder(tries)
    requires RowTells(After(tries, n - 1), key, FailureTimes(tries, n - 1, key))
    requires Spaced(FailureTimes(tries, n - 1, key))
    ensures RowTells(After(tries, n), key, FailureTimes(tries, n, key)) && Spaced(FailureTimes(tries, n, key))
  {
    var before, times, one := After(tries, n - 1), FailureTimes(tries, n - 1, key), tries[n - 1];
    if one.key != key {
      OthersTell(before, key, times, one);
    } else if OutcomeOf(tries, n - 1) == Refused {
      PauseIsOver(before, times, one);
      SpacedOneMore(times, one.recordedAt);
      RecordedTells(before, times, one);
    }
  }

  /** The key's pause is not over: at least five failures, and the pause after the last still runs. */
  predicate IsPaused(times: seq<Instant>, now: Instant) {
    |times| >= THRESHOLD && now < times[|times| - 1] + Backoff(|times|) * SECOND
  }

  /** A code for nothing that stands is turned away first; then a try is blocked exactly while the key's
      pause runs, not an instant longer; and only a try that is neither is judged by what was given. */
  lemma {:induction false} OutcomesExactly(tries: seq<Try>, i: nat)
    requires i < |tries| && InOrder(tries)
    ensures var (outcome, one) := (OutcomeOf(tries, i), tries[i]);
            var paused := IsPaused(FailureTimes(tries, i, one.key), one.now);
            var unknown := one.step.Code? && !one.step.known;
            && (outcome == Unknown <==> unknown)
            && (outcome == Blocked <==> !unknown && paused)
            && (outcome == Refused <==> !unknown && !paused && !one.step.right)
            && (outcome == Challenged <==> !paused && one.step == Password(true, true))
            && (outcome == Accepted <==> !paused && one.step in {Password(true, false), Code(true, true)})
  {
    FailuresAreSpaced(tries, i, tries[i].key);
  }

  /** Only a refusal and an acceptance change a row, and a key is never blocked before its fifth failure. */
  lemma {:induction false} BlockedChangesNothing(tries: seq<Try>, i: nat)
    requires i < |tries| && InOrder(tries) && !OutcomeOf(tries, i).Refused? && !OutcomeOf(tries, i).Accepted?
    ensures After(tries, i + 1) == After(tries, i)
    ensures OutcomeOf(tries, i) == Blocked ==> |FailureTimes(tries, i, tries[i].key)| >= THRESHOLD
  {
    FailuresAreSpaced(tries, i, tries[i].key);
  }

  // --- whom a right password helps -----------------------------------------------------------

  /** The account behind `key` has a second factor, and no right code has been given for it. */
  predicate OnlyGuessed(tries: seq<Try>, n: nat, key: Key)
    requires n <= |tries|
  {
    forall i :: 0 <= i < n && tries[i].key == key ==> IsGuess(tries[i].step)
  }

  predicate IsGuess(step: Step) {
    match step
    case Password(_, enrolled) => enrolled
    case Code(known, right) => !(known && right)
  }

  /** When every try against a key that was refused was recorded. */
  function RefusalTimes(tries: seq<Try>, n: nat, key: Key): seq<Instant>
    requires n <= |tries|
  {
    if n == 0 then []
    else
      RefusalTimes(tries, n - 1, key)
        + if tries[n - 1].key == key && OutcomeOf(tries, n - 1) == Refused then [tries[n - 1].recordedAt] else []
  }

  /** Somebody who holds the password of an enrolled account cannot start the count again with it: every
      refusal counts, and so the pauses stand between the codes tried. */
  lemma {:induction false} PasswordAloneClearsNothing(tries: seq<Try>, n: nat, key: Key)
    requires n <= |tries| && InOrder(tries) && OnlyGuessed(tries, n, key)
    ensures FailureTimes(tries, n, key) == RefusalTimes(tries, n, key)
    ensures Spaced(RefusalTimes(tries, n, key))
  {
    FailuresAreSpaced(tries, n, key);
    if n > 0 {
      PasswordAloneClearsNothing(tries, n - 1, key);
      assert tries[n - 1].key == key ==> IsGuess(tries[n - 1].step);
    }
  }

  // --- how much that is --------------------------------------------------------------------

  lemma {:induction false} PowersPassSixtyFour(exponent: nat)
    requires exponent >= 6
    ensures PowerOfTwo(exponent) >= 64
  {
    if exponent == 6 {
      assert PowerOfTwo(3) == 8;
      assert PowerOfTwo(6) == 64;
    } else {
      PowersPassSixtyFour(exponent - 1);
    }
  }

  /** The cap on the exponent never changes the pause. */
  lemma {:induction false} ExponentCapIsSilent(count: nat)
    requires count >= THRESHOLD
    ensures Backoff(count) == Min(BASE_SECONDS * PowerOfTwo(count - THRESHOLD), MAX_SECONDS)
  {
    if count - THRESHOLD > MAX_EXPONENT {
      PowersPassSixtyFour(count - THRESHOLD);
      PowersPassSixtyFour(MAX_EXPONENT);
    }
  }

  lemma {:induction false} BackoffTable()
    ensures Backoff(5) == 60 && Backoff(6) == 120 && Backoff(7) == 240
    ensures Backoff(8) == 480 && Backoff(9) == 960 && Backoff(10) == 1920
  {
    assert PowerOfTwo(0) == 1 && PowerOfTwo(1) == 2 && PowerOfTwo(2) == 4;
    assert PowerOfTwo(3) == 8 && PowerOfTwo(4) == 16 && PowerOfTwo(5) == 32;
  }

  lemma {:induction false} BackoffTop(count: nat)
    requires count >= 11
    ensures Backoff(count) == MAX_SECONDS
  {
    PowersPassSixtyFour(Min(count - THRESHOLD, MAX_EXPONENT));
  }

  lemma {:induction false} FirstEleven(times: seq<Instant>)
    requires Spaced(times) && |times| >= 11
    ensures times[10] - times[4] >= 3780 * SECOND
  {
    BackoffTable();
    assert IsSpaced(times, 5) && IsSpaced(times, 6) && IsSpaced(times, 7);
    assert IsSpaced(times, 8) && IsSpaced(times, 9) && IsSpaced(times, 10);
  }

  /** Failure N of one address and client, with no success in between, comes at least 63 minutes after
      the fifth when N is 11, and an hour more for each one after. */
  lemma {:induction false} GuessingIsSlow(times: seq<Instant>, count: nat)
    requires Spaced(times) && 11 <= count <= |times|
    ensures times[count - 1] - times[4] >= (3780 + MAX_SECONDS * (count - 11)) * SECOND
  {
    if count == 11 {
      FirstEleven(times);
    } else {
      GuessingIsSlow(times, count - 1);
      BackoffTop(count - 1);
      assert IsSpaced(times, count - 1);
    }
  }
}
