/** What the evaluator's cache holds: the keys used since the last clear, latest uses last, as many of
    the newest as the limit allows. */
module LeastRecent {
  import opened Prelude
  import opened Documents
  import opened Evaluator

  /** The `n`-th call uses its key: it answers verdicts rather than raising. */
  predicate Uses(setting: Setting, calls: seq<Call>, n: nat)
    requires n < |calls|
  {
    calls[n].Evaluate? && AnswerTo(setting, calls, n).Ok?
  }

  /** Which of the first `n` calls used a key last since the last clear, or -1. */
  function LastUse(setting: Setting, calls: seq<Call>, n: nat, key: Key): int
    requires n <= |calls|
  {
    if n == 0 || calls[n - 1].Clear? then -1
    else if Uses(setting, calls, n - 1) && calls[n - 1].key == key then n - 1
    else LastUse(setting, calls, n - 1, key)
  }

  function KeyAt(keys: seq<Key>, key: Key, n: nat): nat
    requires n <= |keys|
  {
    FirstWith(keys, (one: Key) => one, key, n)
  }

  predicate Distinct(keys: seq<Key>) {
    forall i, j :: 0 <= i < j < |keys| ==> keys[i] != keys[j]
  }

  function Without(keys: seq<Key>, key: Key): seq<Key> {
    var at := KeyAt(keys, key, |keys|);
    if at < |keys| then keys[..at] + keys[at + 1..] else keys
  }

  /** The keys used since the last clear, in the order of their last uses. */
  function Recency(setting: Setting, calls: seq<Call>, n: nat): seq<Key>
    requires n <= |calls|
  {
    if n == 0 || calls[n - 1].Clear? then []
    else
      var earlier := Recency(setting, calls, n - 1);
      if Uses(setting, calls, n - 1) then Without(earlier, calls[n - 1].key) + [calls[n - 1].key] else earlier
  }

  lemma {:induction false} WithoutMembers(keys: seq<Key>, key: Key)
    requires Distinct(keys)
    ensures Distinct(Without(keys, key)) && key !in Without(keys, key)
    ensures forall other :: other != key ==> (other in Without(keys, key) <==> other in keys)
  {
    var at := KeyAt(keys, key, |keys|);
    if at < |keys| {
      assert keys == keys[..at] + [key] + keys[at + 1..];
    }
  }

  predicate ByLastUse(setting: Setting, calls: seq<Call>, n: nat, keys: seq<Key>)
    requires n <= |calls|
  {
    forall i, j :: 0 <= i < j < |keys| ==> LastUse(setting, calls, n, keys[i]) < LastUse(setting, calls, n, keys[j])
  }

  lemma {:induction false} LastUseIsPast(setting: Setting, calls: seq<Call>, n: nat, key: Key)
    requires n <= |calls|
    ensures LastUse(setting, calls, n, key) < n
  {
    if n > 0 && calls[n - 1].Evaluate? {
      LastUseIsPast(setting, calls, n - 1, key);
    }
  }

  lemma {:induction false} RecencyHoldsUsed(setting: Setting, calls: seq<Call>, n: nat, key: Key)
    requires n <= |calls|
    ensures Distinct(Recency(setting, calls, n))
    ensures key in Recency(setting, calls, n) <==> LastUse(setting, calls, n, key) >= 0
  {
    if n > 0 && calls[n - 1].Evaluate? {
      RecencyHoldsUsed(setting, calls, n - 1, key);
      WithoutMembers(Recency(setting, calls, n - 1), calls[n - 1].key);
    }
  }

  /** The recency list is what its name says: the keys with a use since the last clear, each once, in
      the order of their last uses. */
  lemma {:induction false} RecencyIsByLastUse(setting: Setting, calls: seq<Call>, n: nat)
    requires n <= |calls|
    ensures Distinct(Recency(setting, calls, n)) && ByLastUse(setting, calls, n, Recency(setting, calls, n))
    ensures forall key :: key in Recency(setting, calls, n) <==> LastUse(setting, calls, n, key) >= 0
  {
    forall key ensures key in Recency(setting, calls, n) <==> LastUse(setting, calls, n, key) >= 0 {
      RecencyHoldsUsed(setting, calls, n, key);
    }
    RecencyHoldsUsed(setting, calls, n, Key([], [], []));
    if n > 0 && calls[n - 1].Evaluate? {
      RecencyIsByLastUse(setting, calls, n - 1);
      if Uses(setting, calls, n - 1) {
        var earlier, key := Recency(setting, calls, n - 1), calls[n - 1].key;
        WithoutIsByLastUse(setting, calls, n, earlier, key);
      }
    }
  }

  /** Other keys keep their last use and their order. */
  lemma {:induction false} OthersByLastUse(setting: Setting, calls: seq<Call>, n: nat, earlier: seq<Key>, key: Key)
    requires 0 < n <= |calls| && Uses(setting, calls, n - 1) && calls[n - 1].key == key
    requires Distinct(earlier) && ByLastUse(setting, calls, n - 1, earlier)
    ensures ByLastUse(setting, calls, n - 1, Without(earlier, key))
    ensures forall other :: other in Without(earlier, key) ==>
              LastUse(setting, calls, n, other) == LastUse(setting, calls, n - 1, other) < n - 1
  {
    var rest := Without(earlier, key);
    WithoutMembers(earlier, key);
    forall other | other in rest
      ensures LastUse(setting, calls, n, other) == LastUse(setting, calls, n - 1, other) < n - 1
    {
      LastUseIsPast(setting, calls, n - 1, other);
    }
    forall i, j | 0 <= i < j < |rest|
      ensures LastUse(setting, calls, n - 1, rest[i]) < LastUse(setting, calls, n - 1, rest[j])
    {
      var _, _ := WithoutKeepsOrder(earlier, key, i, j);
    }
  }

  lemma {:induction false} WithoutIsByLastUse(setting: Setting, calls: seq<Call>, n: nat, earlier: seq<Key>, key: Key)
    requires 0 < n <= |calls| && Uses(setting, calls, n - 1) && calls[n - 1].key == key
    requires Distinct(earlier) && ByLastUse(setting, calls, n - 1, earlier)
    ensures ByLastUse(setting, calls, n, Without(earlier, key) + [key])
  {
    var rest := Without(earlier, key);
    OthersByLastUse(setting, calls, n, earlier, key);
    assert forall i :: 0 <= i < |rest| ==> rest[i] in rest;
    assert LastUse(setting, calls, n, key) == n - 1;
  }

  lemma {:induction false} WithoutKeepsOrder(keys: seq<Key>, key: Key, i: nat, j: nat) returns (a: nat, b: nat)
    requires i < j < |Without(keys, key)|
    ensures a < b < |keys| && keys[a] == Without(keys, key)[i] && keys[b] == Without(keys, key)[j]
  {
    var at := KeyAt(keys, key, |keys|);
    a := if i < at then i else i + 1;
    b := if j < at then j else j + 1;
  }

  // --- the cache ---------------------------------------------------------------------------

  function KeysOf(cache: seq<Slot>): seq<Key> {
    seq(|cache|, i requires 0 <= i < |cache| => cache[i].key)
  }

  lemma {:induction false} WithoutJoined(older: seq<Key>, newest: seq<Key>, key: Key)
    requires Distinct(older + newest)
    ensures key in newest ==> Without(older + newest, key) == older + Without(newest, key)
    ensures key !in newest ==> Without(older + newest, key) == Without(older, key) + newest
  {
    var all := older + newest;
    var at := KeyAt(all, key, |all|);
    if key in newest {
      var i := KeyAt(newest, key, |newest|);
      assert all[|older| + i] == key;
      assert at == |older| + i;
    } else if key in older {
      var i := KeyAt(older, key, |older|);
      assert all[i] == key;
      assert at == i;
    } else {
      assert key !in all;
    }
  }

  lemma {:induction false} NewestSplits(keys: seq<Key>) returns (older: seq<Key>)
    ensures keys == older + Newest(keys)
    ensures older == [] || |Newest(keys)| == CACHE_LIMIT
  {
    older := keys[..|keys| - |Newest(keys)|];
  }

  lemma {:induction false} NewestJoined(older: seq<Key>, newest: seq<Key>)
    requires |newest| == CACHE_LIMIT || (|newest| <= CACHE_LIMIT && older == []) || |newest| == CACHE_LIMIT + 1
    ensures Newest(older + newest) == Newest(newest)
  {
  }

  lemma {:induction false} TouchedNewest(keys: seq<Key>, key: Key)
    requires Distinct(keys)
    ensures Newest(Without(keys, key) + [key]) ==
            if key in Newest(keys) then Without(Newest(keys), key) + [key] else Newest(Newest(keys) + [key])
  {
    var older := NewestSplits(keys);
    var newest := Newest(keys);
    WithoutJoined(older, newest, key);
    if key in newest {
      NewestJoined(older, Without(newest, key) + [key]);
      assert older + Without(newest, key) + [key] == older + (Without(newest, key) + [key]);
    } else {
      NewestJoined(Without(older, key), newest + [key]);
      assert Without(older, key) + newest + [key] == Without(older, key) + (newest + [key]);
    }
  }

  lemma {:induction false} MovedKeys(cache: seq<Slot>, at: nat)
    requires at < |cache|
    ensures KeysOf(Moved(cache, at)) == KeysOf(cache)[..at] + KeysOf(cache)[at + 1..] + [cache[at].key]
    ensures KeysOf(cache)[at] == cache[at].key
  {
  }

  lemma {:induction false} KeysAgree(cache: seq<Slot>, key: Key, n: nat)
    requires n <= |cache|
    ensures KeyAt(KeysOf(cache), key, n) == SlotAt(cache, key, n)
  {
    if n > 0 {
      KeysAgree(cache, key, n - 1);
    }
  }

  lemma {:induction false} GrownKeys(cache: seq<Slot>, slot: Slot)
    ensures KeysOf(Newest(cache + [slot])) == Newest(KeysOf(cache) + [slot.key])
  {
  }

  lemma {:induction false} EvaluatedKeys(setting: Setting, cache: seq<Slot>, key: Key, body: Option<Mapping>)
    ensures var (answer, after) := Evaluated(setting, cache, key, body);
            KeysOf(after) == if answer.Error? then KeysOf(cache)
                             else if key in KeysOf(cache) then Without(KeysOf(cache), key) + [key]
                             else Newest(KeysOf(cache) + [key])
  {
    var at := SlotAt(cache, key, |cache|);
    KeysAgree(cache, key, |cache|);
    if at < |cache| {
      MovedKeys(cache, at);
    } else {
      assert key !in KeysOf(cache);
      var answer := Fresh(setting, key, body);
      if answer.Ok? {
        GrownKeys(cache, Slot(key, answer.value));
      }
    }
  }

  function KeysAfterUse(held: seq<Key>, key: Key): seq<Key> {
    if key in held then Without(held, key) + [key] else Newest(held + [key])
  }

  /** A use moves its key to the end of both the recency list and what the cache keeps of it. */
  lemma {:induction false} UsedKeys(earlier: seq<Key>, held: seq<Key>, key: Key)
    requires Distinct(earlier) && held == Newest(earlier)
    ensures var now := KeysAfterUse(held, key);
            && now == Newest(Without(earlier, key) + [key])
            && |now| <= CACHE_LIMIT && now != [] && now[|now| - 1] == key
  {
    TouchedNewest(earlier, key);
  }

  lemma {:induction false} KeysAfterCall(setting: Setting, calls: seq<Call>, n: nat)
    requires 0 < n <= |calls| && calls[n - 1].Evaluate?
    ensures var held := KeysOf(CacheAfter(setting, calls, n - 1));
            KeysOf(CacheAfter(setting, calls, n)) ==
            if Uses(setting, calls, n - 1) then KeysAfterUse(held, calls[n - 1].key) else held
  {
    EvaluatedKeys(setting, CacheAfter(setting, calls, n - 1), calls[n - 1].key, calls[n - 1].body);
  }

  /** After any trace the keys the cache holds are exactly the most recently used since the last
      clear, up to the limit, in recency order; the key a call has just used is the last of them. */
  lemma {:induction false} CacheIsNewest(setting: Setting, calls: seq<Call>, n: nat)
    requires n <= |calls|
    ensures var held := KeysOf(CacheAfter(setting, calls, n));
            && held == Newest(Recency(setting, calls, n)) && |held| <= CACHE_LIMIT
            && (n > 0 && Uses(setting, calls, n - 1) ==> held != [] && held[|held| - 1] == calls[n - 1].key)
  {
    if n > 0 && calls[n - 1].Evaluate? {
      CacheIsNewest(setting, calls, n - 1);
      RecencyIsByLastUse(setting, calls, n - 1);
      KeysAfterCall(setting, calls, n);
      UsedKeys(Recency(setting, calls, n - 1), KeysOf(CacheAfter(setting, calls, n - 1)), calls[n - 1].key);
    }
  }
}
