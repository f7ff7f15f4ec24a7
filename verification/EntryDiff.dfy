/** The comparison of two entry sets: what went by digest, what came, and who is paired with whom. */
module EntryDiff {
  import opened Prelude
  import opened Documents
  import opened Identity

  datatype Entry = Entry(digest: string, body: Mapping, caption: Option<string>)

  datatype ChangeKind = Removed | Updated | Added

  datatype EntryChange = EntryChange(
    section: string, kind: string, change: ChangeKind, identity: Mapping,
    was: Option<Mapping>, now: Option<Mapping>, caption: Option<string>, changedFields: seq<string>)

  /** One line of the answer before it is written out: what went, what came, or both. */
  datatype Match = Match(gone: Option<Entry>, came: Option<Entry>)

  // --- by digest ---------------------------------------------------------------------------

  /** Where a digest first stands among the first `n` entries, or `n`. */
  function DigestAt(entries: seq<Entry>, digest: string, n: nat): nat
    requires n <= |entries|
  {
    FirstWith(entries, (entry: Entry) => entry.digest, digest, n)
  }

  predicate HasDigest(entries: seq<Entry>, digest: string) {
    DigestAt(entries, digest, |entries|) < |entries|
  }

  predicate DistinctDigests(entries: seq<Entry>) {
    forall i, j :: 0 <= i < j < |entries| ==> entries[i].digest != entries[j].digest
  }

  function Upsert(entries: seq<Entry>, entry: Entry): seq<Entry> {
    var at := DigestAt(entries, entry.digest, |entries|);
    if at < |entries| then entries[at := entry] else entries + [entry]
  }

  /** `{entry.digest: entry for entry in entries}`: the last entry of a digest, at its first place. */
  function ByDigest(entries: seq<Entry>, n: nat): seq<Entry>
    requires n <= |entries|
  {
    if n == 0 then [] else Upsert(ByDigest(entries, n - 1), entries[n - 1])
  }

  lemma {:induction false} ByDigestIsDistinct(entries: seq<Entry>, n: nat)
    requires n <= |entries|
    ensures DistinctDigests(ByDigest(entries, n))
    ensures forall digest :: HasDigest(ByDigest(entries, n), digest) <==> HasDigest(entries[..n], digest)
  {
    if n > 0 {
      ByDigestIsDistinct(entries, n - 1);
      var before := ByDigest(entries, n - 1);
      assert entries[..n] == entries[..n - 1] + [entries[n - 1]];
      forall digest ensures HasDigest(ByDigest(entries, n), digest) <==> HasDigest(entries[..n], digest) {
        UpsertHas(before, entries[n - 1], digest);
        AppendHas(entries[..n - 1], entries[n - 1], digest);
      }
    }
  }

  lemma {:induction false} AppendHas(entries: seq<Entry>, entry: Entry, digest: string)
    ensures HasDigest(entries + [entry], digest) <==> HasDigest(entries, digest) || entry.digest == digest
  {
    var more := entries + [entry];
    if HasDigest(entries, digest) {
      assert more[DigestAt(entries, digest, |entries|)].digest == digest;
    }
    assert more[|entries|] == entry;
  }

  lemma {:induction false} UpsertHas(entries: seq<Entry>, entry: Entry, digest: string)
    ensures HasDigest(Upsert(entries, entry), digest) <==> HasDigest(entries, digest) || entry.digest == digest
  {
    var at := DigestAt(entries, entry.digest, |entries|);
    if at == |entries| {
      AppendHas(entries, entry, digest);
    } else {
      var changed := entries[at := entry];
      assert forall i :: 0 <= i < |entries| ==> changed[i].digest == entries[i].digest;
      if HasDigest(entries, digest) {
        assert changed[DigestAt(entries, digest, |entries|)].digest == digest;
      }
      if HasDigest(changed, digest) {
        assert entries[DigestAt(changed, digest, |changed|)].digest == digest;
      }
    }
  }

  /** The entries of one side whose digest the other side lacks. */
  function Missing(entries: seq<Entry>, other: seq<Entry>, n: nat): seq<Entry>
    requires n <= |entries|
  {
    if n == 0 then []
    else
      var earlier := Missing(entries, other, n - 1);
      if HasDigest(other, entries[n - 1].digest) then earlier else earlier + [entries[n - 1]]
  }

  /** What went from `entries`, seen from the other side. */
  function Gone(entries: seq<Entry>, other: seq<Entry>): seq<Entry> {
    var mine := ByDigest(entries, |entries|);
    Missing(mine, ByDigest(other, |other|), |mine|)
  }

  // --- by identity -------------------------------------------------------------------------

  function KeyOf(entry: Entry, keys: seq<string>): Key {
    IdentityKey(entry.body, keys)
  }

  /** The entries of one identity among the first `n`, in order. */
  function OfKey(entries: seq<Entry>, n: nat, keys: seq<string>, key: Key): seq<Entry>
    requires n <= |entries|
  {
    if n == 0 then []
    else
      var earlier := OfKey(entries, n - 1, keys, key);
      if KeyOf(entries[n - 1], keys) == key then earlier + [entries[n - 1]] else earlier
  }

  predicate IsMatch(match_: Match, keys: seq<string>) {
    && (match_.gone.Some? || match_.came.Some?)
    && (match_.gone.Some? && match_.came.Some? ==> KeyOf(match_.gone.value, keys) == KeyOf(match_.came.value, keys))
  }

  function MatchKey(match_: Match, keys: seq<string>): Key {
    if match_.gone.Some? then KeyOf(match_.gone.value, keys)
    else if match_.came.Some? then KeyOf(match_.came.value, keys)
    else []
  }

  function MatchesOf(matches: seq<Match>, n: nat, keys: seq<string>, key: Key): seq<Match>
    requires n <= |matches|
  {
    if n == 0 then []
    else
      var earlier := MatchesOf(matches, n - 1, keys, key);
      if MatchKey(matches[n - 1], keys) == key then earlier + [matches[n - 1]] else earlier
  }

  function At(entries: seq<Entry>, i: nat): Option<Entry> {
    if i < |entries| then Some(entries[i]) else None
  }

  /** Two lists of one identity side by side, the first with the first, the shorter one padded. */
  function Zip(gone: seq<Entry>, came: seq<Entry>): seq<Match> {
    seq(Max(|gone|, |came|), i requires 0 <= i => Match(At(gone, i), At(came, i)))
  }

  /** The pairing: within each identity the n-th entry that went meets the n-th that came. */
  ghost predicate Pairs(matches: seq<Match>, gone: seq<Entry>, came: seq<Entry>, keys: seq<string>) {
    && (forall i :: 0 <= i < |matches| ==> IsMatch(matches[i], keys))
    && (forall key :: MatchesOf(matches, |matches|, keys, key)
                   == Zip(OfKey(gone, |gone|, keys, key), OfKey(came, |came|, keys, key)))
  }

  // --- the waiting lists -------------------------------------------------------------------

  /** One item of the ordered dictionary of entries that came, by identity. */
  datatype Group = Group(key: Key, waiting: seq<Entry>)

  function Slot(groups: seq<Group>, key: Key, n: nat): nat
    requires n <= |groups|
  {
    FirstWith(groups, (group: Group) => group.key, key, n)
  }

  function Waiting(groups: seq<Group>, key: Key): seq<Entry> {
    var slot := Slot(groups, key, |groups|);
    if slot < |groups| then groups[slot].waiting else []
  }

  function Put(groups: seq<Group>, key: Key, waiting: seq<Entry>): seq<Group> {
    var slot := Slot(groups, key, |groups|);
    if slot < |groups| then groups[slot := Group(key, waiting)] else groups + [Group(key, waiting)]
  }

  predicate DistinctKeys(groups: seq<Group>) {
    forall i, j :: 0 <= i < j < |groups| ==> groups[i].key != groups[j].key
  }

  predicate Shares(waiting: seq<Entry>, keys: seq<string>, key: Key) {
    forall i :: 0 <= i < |waiting| ==> KeyOf(waiting[i], keys) == key
  }

  predicate Grouped(groups: seq<Group>, keys: seq<string>) {
    DistinctKeys(groups) && forall i :: 0 <= i < |groups| ==> Shares(groups[i].waiting, keys, groups[i].key)
  }

  lemma {:induction false} SlotIsUnique(groups: seq<Group>, key: Key, slot: nat)
    requires DistinctKeys(groups) && slot < |groups| && groups[slot].key == key
    ensures Slot(groups, key, |groups|) == slot
  {
  }

  lemma {:induction false} PutIsGrouped(groups: seq<Group>, key: Key, waiting: seq<Entry>, keys: seq<string>)
    requires Grouped(groups, keys) && Shares(waiting, keys, key)
    ensures Grouped(Put(groups, key, waiting), keys)
  {
  }

  lemma {:induction false} PutThenWaiting(groups: seq<Group>, key: Key, waiting: seq<Entry>, other: Key)
    requires DistinctKeys(groups)
    ensures Waiting(Put(groups, key, waiting), other) == if other == key then waiting else Waiting(groups, other)
  {
    var put := Put(groups, key, waiting);
    var slot := Slot(groups, key, |groups|);
    assert DistinctKeys(put);
    if other == key {
      SlotIsUnique(put, key, slot);
    } else {
      var place := Slot(groups, other, |groups|);
      if place < |groups| {
        SlotIsUnique(put, other, place);
      }
    }
  }

  function Rest(entries: seq<Entry>, n: nat): seq<Entry> {
    if n <= |entries| then entries[n..] else []
  }

  /** The part of `Zip` that the entries that went account for. */
  function Settled(gone: seq<Entry>, came: seq<Entry>): seq<Match> {
    seq(|gone|, i requires 0 <= i => Match(At(gone, i), At(came, i)))
  }

  function Additions(entries: seq<Entry>, n: nat): seq<Match>
    requires n <= |entries|
  {
    seq(n, i requires 0 <= i < |entries| => Match(None, Some(entries[i])))
  }

  lemma {:induction false} ZipIsSettledThenAdded(gone: seq<Entry>, came: seq<Entry>)
    ensures Zip(gone, came) == Settled(gone, came) + Additions(Rest(came, |gone|), |Rest(came, |gone|)|)
  {
  }

  /** While the entries that went are being paired: the first `n` are settled, and each identity's
      list has lost as many of its first entries. */
  ghost predicate Halfway(
    matches: seq<Match>, groups: seq<Group>, gone: seq<Entry>, n: nat, came: seq<Entry>, keys: seq<string>)
    requires n <= |gone|
  {
    && (forall i :: 0 <= i < |matches| ==> IsMatch(matches[i], keys))
    && (forall key :: HalfwayAt(matches, groups, gone, n, came, keys, key))
  }

  predicate HalfwayAt(
    matches: seq<Match>, groups: seq<Group>, gone: seq<Entry>, n: nat, came: seq<Entry>, keys: seq<string>, key: Key)
    requires n <= |gone|
  {
    var went, arrived := OfKey(gone, n, keys, key), OfKey(came, |came|, keys, key);
    && Waiting(groups, key) == Rest(arrived, |went|)
    && MatchesOf(matches, |matches|, keys, key) == Settled(went, arrived)
  }

  lemma {:induction false} MatchesOfJoined(a: seq<Match>, b: seq<Match>, n: nat, keys: seq<string>, key: Key)
    requires n <= |b|
    ensures MatchesOf(a + b, |a| + n, keys, key) == MatchesOf(a, |a|, keys, key) + MatchesOf(b, n, keys, key)
    decreases n
  {
    if n == 0 {
      MatchesOfPrefix(a, b, |a|, keys, key);
    } else {
      MatchesOfJoined(a, b, n - 1, keys, key);
      assert (a + b)[|a| + n - 1] == b[n - 1];
      var first, second := MatchesOf(a, |a|, keys, key), MatchesOf(b, n - 1, keys, key);
      assert first + (second + [b[n - 1]]) == (first + second) + [b[n - 1]];
    }
  }

  lemma {:induction false} MatchesOfPrefix(a: seq<Match>, b: seq<Match>, n: nat, keys: seq<string>, key: Key)
    requires n <= |a|
    ensures MatchesOf(a + b, n, keys, key) == MatchesOf(a, n, keys, key)
  {
    if n > 0 {
      MatchesOfPrefix(a, b, n - 1, keys, key);
      assert (a + b)[n - 1] == a[n - 1];
    }
  }

  lemma {:induction false} AllJoined(a: seq<Match>, b: seq<Match>, keys: seq<string>, key: Key)
    ensures MatchesOf(a + b, |a + b|, keys, key) == MatchesOf(a, |a|, keys, key) + MatchesOf(b, |b|, keys, key)
  {
    MatchesOfJoined(a, b, |b|, keys, key);
  }

  lemma {:induction false} MatchesOfOneMore(matches: seq<Match>, match_: Match, keys: seq<string>, key: Key)
    ensures MatchesOf(matches + [match_], |matches| + 1, keys, key) ==
            if MatchKey(match_, keys) == key then MatchesOf(matches, |matches|, keys, key) + [match_]
            else MatchesOf(matches, |matches|, keys, key)
  {
    MatchesOfPrefix(matches, [match_], |matches|, keys, key);
  }

  function Partner(groups: seq<Group>, entry: Entry, keys: seq<string>): Option<Entry> {
    At(Waiting(groups, KeyOf(entry, keys)), 0)
  }

  function Without(groups: seq<Group>, entry: Entry, keys: seq<string>): seq<Group> {
    var key := KeyOf(entry, keys);
    var candidates := Waiting(groups, key);
    if candidates == [] then groups else Put(groups, key, candidates[1..])
  }

  lemma {:induction false} PartnerMatches(groups: seq<Group>, entry: Entry, keys: seq<string>)
    requires Grouped(groups, keys)
    ensures IsMatch(Match(Some(entry), Partner(groups, entry, keys)), keys)
    ensures Grouped(Without(groups, entry, keys), keys)
  {
    var key := KeyOf(entry, keys);
    var candidates := Waiting(groups, key);
    if candidates != [] {
      var slot := Slot(groups, key, |groups|);
      assert Shares(groups[slot].waiting, keys, groups[slot].key);
      PutIsGrouped(groups, key, candidates[1..], keys);
    }
  }

  lemma {:induction false} WithoutAt(groups: seq<Group>, entry: Entry, keys: seq<string>, key: Key)
    requires DistinctKeys(groups)
    ensures var waiting := Waiting(groups, key);
            Waiting(Without(groups, entry, keys), key) ==
            if key == KeyOf(entry, keys) && waiting != [] then waiting[1..] else waiting
  {
    var own := KeyOf(entry, keys);
    if Waiting(groups, own) != [] {
      PutThenWaiting(groups, own, Waiting(groups, own)[1..], key);
    }
  }

  lemma {:induction false} SettledOneMore(went: seq<Entry>, arrived: seq<Entry>, entry: Entry)
    ensures Settled(went + [entry], arrived) == Settled(went, arrived) + [Match(Some(entry), At(Rest(arrived, |went|), 0))]
    ensures Rest(arrived, |went| + 1) == if Rest(arrived, |went|) == [] then [] else Rest(arrived, |went|)[1..]
  {
  }

  /** The matches of one identity once one more entry that went has its match. */
  lemma {:induction false} MatchesStep(
    matches: seq<Match>, match_: Match, entry: Entry, went: seq<Entry>, arrived: seq<Entry>, waiting: seq<Entry>,
    keys: seq<string>, key: Key)
    requires MatchesOf(matches, |matches|, keys, key) == Settled(went, arrived) && waiting == Rest(arrived, |went|)
    requires match_.gone == Some(entry)
    requires key == KeyOf(entry, keys) ==> match_ == Match(Some(entry), At(waiting, 0))
    ensures MatchesOf(matches + [match_], |matches| + 1, keys, key)
         == Settled(if key == KeyOf(entry, keys) then went + [entry] else went, arrived)
  {
    MatchesOfOneMore(matches, match_, keys, key);
    if key == KeyOf(entry, keys) {
      SettledOneMore(went, arrived, entry);
    }
  }

  /** And its list. */
  lemma {:induction false} WaitingStep(
    groups: seq<Group>, entry: Entry, went: seq<Entry>, arrived: seq<Entry>, keys: seq<string>, key: Key)
    requires DistinctKeys(groups) && Waiting(groups, key) == Rest(arrived, |went|)
    ensures Waiting(Without(groups, entry, keys), key)
         == Rest(arrived, if key == KeyOf(entry, keys) then |went| + 1 else |went|)
  {
    WithoutAt(groups, entry, keys, key);
  }

  lemma {:induction false} PairingStepAt(
    matches: seq<Match>, groups: seq<Group>, gone: seq<Entry>, n: nat, came: seq<Entry>, keys: seq<string>, key: Key)
    requires n < |gone| && DistinctKeys(groups) && HalfwayAt(matches, groups, gone, n, came, keys, key)
    ensures var match_ := Match(Some(gone[n]), Partner(groups, gone[n], keys));
            HalfwayAt(matches + [match_], Without(groups, gone[n], keys), gone, n + 1, came, keys, key)
  {
    var went, arrived := OfKey(gone, n, keys, key), OfKey(came, |came|, keys, key);
    var match_ := Match(Some(gone[n]), Partner(groups, gone[n], keys));
    MatchesStep(matches, match_, gone[n], went, arrived, Waiting(groups, key), keys, key);
    WaitingStep(groups, gone[n], went, arrived, keys, key);
  }

  /** The entry that went next meets the head of its identity's list, if there is one. */
  lemma {:induction false} PairingStep(
    matches: seq<Match>, groups: seq<Group>, gone: seq<Entry>, n: nat, came: seq<Entry>, keys: seq<string>)
    requires n < |gone| && Halfway(matches, groups, gone, n, came, keys) && Grouped(groups, keys)
    ensures Grouped(Without(groups, gone[n], keys), keys)
    ensures var match_ := Match(Some(gone[n]), Partner(groups, gone[n], keys));
            Halfway(matches + [match_], Without(groups, gone[n], keys), gone, n + 1, came, keys)
  {
    var match_, left, next := Match(Some(gone[n]), Partner(groups, gone[n], keys)), Without(groups, gone[n], keys), n + 1;
    PartnerMatches(groups, gone[n], keys);
    forall key ensures HalfwayAt(matches + [match_], left, gone, next, came, keys, key) {
      PairingStepAt(matches, groups, gone, n, came, keys, key);
    }
  }

  // --- the leftovers -----------------------------------------------------------------------

  function GroupAdditions(group: Group): seq<Match> {
    Additions(group.waiting, |group.waiting|)
  }

  /** What is left in the first `n` lists, in the dictionary's order. */
  function Leftovers(groups: seq<Group>, n: nat): seq<Match>
    requires n <= |groups|
  {
    if n == 0 then []
    else Leftovers(groups, n - 1) + GroupAdditions(groups[n - 1])
  }

  lemma {:induction false} AdditionsOneMore(entries: seq<Entry>, n: nat)
    requires 0 < n <= |entries|
    ensures Additions(entries, n) == Additions(entries, n - 1) + [Match(None, Some(entries[n - 1]))]
  {
  }

  lemma {:induction false} AdditionsOf(entries: seq<Entry>, n: nat, keys: seq<string>, own: Key, key: Key)
    requires n <= |entries| && Shares(entries, keys, own)
    ensures MatchesOf(Additions(entries, n), n, keys, key) == if key == own then Additions(entries, n) else []
  {
    if n > 0 {
      var last := Match(None, Some(entries[n - 1]));
      AdditionsOf(entries, n - 1, keys, own, key);
      AdditionsOneMore(entries, n);
      MatchesOfOneMore(Additions(entries, n - 1), last, keys, key);
      assert MatchKey(last, keys) == own;
    }
  }

  /** What one list adds to what is left of an identity. */
  function PartOf(group: Group, key: Key): seq<Match> {
    if key == group.key then GroupAdditions(group) else []
  }

  /** The leftovers of one identity in the first `n` lists. */
  function LeftoverOf(groups: seq<Group>, n: nat, key: Key): seq<Match>
    requires n <= |groups|
  {
    if n == 0 then [] else LeftoverOf(groups, n - 1, key) + PartOf(groups[n - 1], key)
  }

  lemma {:induction false} GroupAdditionsOf(group: Group, keys: seq<string>, key: Key)
    requires Shares(group.waiting, keys, group.key)
    ensures MatchesOf(GroupAdditions(group), |GroupAdditions(group)|, keys, key) == PartOf(group, key)
  {
    AdditionsOf(group.waiting, |group.waiting|, keys, group.key, key);
  }

  lemma {:induction false} PartsJoined(
    fewer: seq<Match>, own: seq<Match>, more: seq<Match>, keys: seq<string>, key: Key, left: seq<Match>,
    right: seq<Match>)
    requires more == fewer + own
    requires MatchesOf(fewer, |fewer|, keys, key) == left && MatchesOf(own, |own|, keys, key) == right
    ensures MatchesOf(more, |more|, keys, key) == left + right
  {
    AllJoined(fewer, own, keys, key);
  }

  lemma {:induction false} LeftoversOf(
    groups: seq<Group>, n: nat, all: seq<Match>, part: seq<Match>, keys: seq<string>, key: Key)
    requires n <= |groups| && all == Leftovers(groups, n) && part == LeftoverOf(groups, n, key)
    requires forall i :: 0 <= i < |groups| ==> Shares(groups[i].waiting, keys, groups[i].key)
    ensures MatchesOf(all, |all|, keys, key) == part
  {
    if n > 0 {
      var fewer, left, group := Leftovers(groups, n - 1), LeftoverOf(groups, n - 1, key), groups[n - 1];
      LeftoversOf(groups, n - 1, fewer, left, keys, key);
      GroupAdditionsOf(group, keys, key);
      PartsJoined(fewer, GroupAdditions(group), all, keys, key, left, PartOf(group, key));
    }
  }

  lemma {:induction false} LeftoversAreMatches(groups: seq<Group>, n: nat, keys: seq<string>)
    requires n <= |groups|
    ensures forall i :: 0 <= i < |Leftovers(groups, n)| ==> IsMatch(Leftovers(groups, n)[i], keys)
  {
    if n > 0 {
      LeftoversAreMatches(groups, n - 1, keys);
    }
  }

  /** An identity has one list, and what is left of it is that. */
  lemma {:induction false} LeftoverIsSlot(groups: seq<Group>, n: nat, key: Key)
    requires n <= |groups| && DistinctKeys(groups)
    ensures var slot := Slot(groups, key, |groups|);
            LeftoverOf(groups, n, key) == if slot < n then GroupAdditions(groups[slot]) else []
  {
    if n > 0 {
      LeftoverIsSlot(groups, n - 1, key);
      if groups[n - 1].key == key {
        SlotIsUnique(groups, key, n - 1);
      }
    }
  }

  lemma {:induction false} LeftoverIsWaiting(groups: seq<Group>, key: Key)
    requires DistinctKeys(groups)
    ensures LeftoverOf(groups, |groups|, key) == Additions(Waiting(groups, key), |Waiting(groups, key)|)
  {
    LeftoverIsSlot(groups, |groups|, key);
  }

  lemma {:induction false} LeftoversFinishAt(
    matches: seq<Match>, groups: seq<Group>, gone: seq<Entry>, came: seq<Entry>, keys: seq<string>, key: Key)
    requires HalfwayAt(matches, groups, gone, |gone|, came, keys, key) && Grouped(groups, keys)
    ensures var all := matches + Leftovers(groups, |groups|);
            MatchesOf(all, |all|, keys, key) == Zip(OfKey(gone, |gone|, keys, key), OfKey(came, |came|, keys, key))
  {
    LeftoversOf(groups, |groups|, Leftovers(groups, |groups|), LeftoverOf(groups, |groups|, key), keys, key);
    AllJoined(matches, Leftovers(groups, |groups|), keys, key);
    LeftoverIsWaiting(groups, key);
    ZipIsSettledThenAdded(OfKey(gone, |gone|, keys, key), OfKey(came, |came|, keys, key));
  }

  lemma {:induction false} LeftoversFinish(
    matches: seq<Match>, groups: seq<Group>, gone: seq<Entry>, came: seq<Entry>, keys: seq<string>)
    requires Halfway(matches, groups, gone, |gone|, came, keys) && Grouped(groups, keys)
    ensures Pairs(matches + Leftovers(groups, |groups|), gone, came, keys)
  {
    var all := matches + Leftovers(groups, |groups|);
    LeftoversAreMatches(groups, |groups|, keys);
    forall key
      ensures MatchesOf(all, |all|, keys, key) == Zip(OfKey(gone, |gone|, keys, key), OfKey(came, |came|, keys, key))
    {
      assert HalfwayAt(matches, groups, gone, |gone|, came, keys, key);
      LeftoversFinishAt(matches, groups, gone, came, keys, key);
    }
  }

  /** The two loops over what went and what came. */
  method PairUp(gone: seq<Entry>, came: seq<Entry>, keys: seq<string>) returns (matches: seq<Match>)
    ensures Pairs(matches, gone, came, keys)
  {
    var groups: seq<Group> := [];
    for i := 0 to |came|
      invariant Grouped(groups, keys)
      invariant forall key :: Waiting(groups, key) == OfKey(came, i, keys, key)
    {
      var key := KeyOf(came[i], keys);
      EnqueueStep(groups, came, i, keys);
      groups := Put(groups, key, Waiting(groups, key) + [came[i]]);
    }
    matches := [];
    for i := 0 to |gone|
      invariant Grouped(groups, keys)
      invariant Halfway(matches, groups, gone, i, came, keys)
    {
      var key := KeyOf(gone[i], keys);
      var candidates := Waiting(groups, key);
      PairingStep(matches, groups, gone, i, came, keys);
      if candidates != [] {
        matches := matches + [Match(Some(gone[i]), Some(candidates[0]))];
        groups := Put(groups, key, candidates[1..]);
      } else {
        matches := matches + [Match(Some(gone[i]), None)];
      }
    }
    ghost var settled := matches;
    for i := 0 to |groups|
      invariant matches == settled + Leftovers(groups, i)
    {
      var remaining := groups[i].waiting;
      for j := 0 to |remaining|
        invariant matches == settled + Leftovers(groups, i) + Additions(remaining, j)
      {
        matches := matches + [Match(None, Some(remaining[j]))];
      }
    }
    LeftoversFinish(settled, groups, gone, came, keys);
  }

  lemma {:induction false} EnqueueStep(groups: seq<Group>, came: seq<Entry>, n: nat, keys: seq<string>)
    requires n < |came| && Grouped(groups, keys)
    requires forall key :: Waiting(groups, key) == OfKey(came, n, keys, key)
    ensures var own := KeyOf(came[n], keys);
            var more := Put(groups, own, Waiting(groups, own) + [came[n]]);
            Grouped(more, keys) && forall key :: Waiting(more, key) == OfKey(came, n + 1, keys, key)
  {
    var own, next := KeyOf(came[n], keys), n + 1;
    var waiting := Waiting(groups, own);
    var more := Put(groups, own, waiting + [came[n]]);
    var slot := Slot(groups, own, |groups|);
    assert Shares(waiting, keys, own) by {
      assert slot < |groups| ==> Shares(groups[slot].waiting, keys, groups[slot].key);
    }
    PutIsGrouped(groups, own, waiting + [came[n]], keys);
    forall key ensures Waiting(more, key) == OfKey(came, next, keys, key) {
      PutThenWaiting(groups, own, waiting + [came[n]], key);
    }
  }
}
