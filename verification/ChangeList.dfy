/** The list of entry changes as it is handed out: who went and came by digest, each match written
    out, and the whole put in a deterministic order. */
module ChangeList {
  import opened Prelude
  import opened Documents
  import opened Identity
  import opened EntryDiff
  import opened PairingFacts
  import opened StableSort

  // --- who went ----------------------------------------------------------------------------

  /** The last entry of its digest among the first `n`. */
  predicate IsLastAt(entries: seq<Entry>, n: nat, i: nat)
    requires n <= |entries|
  {
    i < n && forall j :: i < j < n ==> entries[j].digest != entries[i].digest
  }

  ghost predicate IsLast(entries: seq<Entry>, n: nat, entry: Entry)
    requires n <= |entries|
  {
    exists i: nat :: i < n && entries[i] == entry && IsLastAt(entries, n, i)
  }

  lemma {:induction false} UpsertMembers(entries: seq<Entry>, entry: Entry, one: Entry)
    requires DistinctDigests(entries)
    ensures one in Upsert(entries, entry) <==> one == entry || (one in entries && one.digest != entry.digest)
  {
    var at := DigestAt(entries, entry.digest, |entries|);
    var more := Upsert(entries, entry);
    assert more[at] == entry;
    if one in entries && one.digest != entry.digest {
      var i :| 0 <= i < |entries| && entries[i] == one;
      assert more[i] == one;
    }
  }

  lemma {:induction false} ByDigestHolds(entries: seq<Entry>, n: nat, one: Entry)
    requires n <= |entries|
    ensures one in ByDigest(entries, n) <==> IsLast(entries, n, one)
  {
    if n > 0 {
      var last := entries[n - 1];
      ByDigestHolds(entries, n - 1, one);
      ByDigestIsDistinct(entries, n - 1);
      UpsertMembers(ByDigest(entries, n - 1), last, one);
      LastOneMore(entries, n, one);
    }
  }

  lemma {:induction false} LastOneMore(entries: seq<Entry>, n: nat, one: Entry)
    requires 0 < n <= |entries|
    ensures IsLast(entries, n, one)
       <==> one == entries[n - 1] || (IsLast(entries, n - 1, one) && one.digest != entries[n - 1].digest)
  {
    assert IsLastAt(entries, n, n - 1);
    if IsLast(entries, n - 1, one) && one.digest != entries[n - 1].digest {
      var i: nat :| i < n - 1 && entries[i] == one && IsLastAt(entries, n - 1, i);
      assert IsLastAt(entries, n, i);
    }
    if IsLast(entries, n, one) && one != entries[n - 1] {
      var i: nat :| i < n && entries[i] == one && IsLastAt(entries, n, i);
      assert IsLastAt(entries, n - 1, i);
    }
  }

  lemma {:induction false} MissingHolds(entries: seq<Entry>, other: seq<Entry>, n: nat, one: Entry)
    requires n <= |entries|
    ensures one in Missing(entries, other, n) <==> one in entries[..n] && !HasDigest(other, one.digest)
  {
    if n > 0 {
      MissingHolds(entries, other, n - 1, one);
      assert entries[..n] == entries[..n - 1] + [entries[n - 1]];
    }
  }

  lemma {:induction false} MissingIsDistinct(entries: seq<Entry>, other: seq<Entry>, n: nat)
    requires n <= |entries| && DistinctDigests(entries)
    ensures DistinctDigests(Missing(entries, other, n))
  {
    if n > 0 {
      MissingIsDistinct(entries, other, n - 1);
      var earlier := Missing(entries, other, n - 1);
      forall i | 0 <= i < |earlier| ensures earlier[i].digest != entries[n - 1].digest {
        MissingHolds(entries, other, n - 1, earlier[i]);
        assert earlier[i] in entries[..n - 1];
      }
    }
  }

  /** What went is, for each digest only the one side has, the last entry that side has of it; no
      digest went twice. */
  lemma {:induction false} GoneExactly(entries: seq<Entry>, other: seq<Entry>, one: Entry)
    ensures one in Gone(entries, other) <==> IsLast(entries, |entries|, one) && !HasDigest(other, one.digest)
    ensures DistinctDigests(Gone(entries, other))
  {
    var mine, theirs := ByDigest(entries, |entries|), ByDigest(other, |other|);
    assert mine[..|mine|] == mine && other[..|other|] == other;
    ByDigestHolds(entries, |entries|, one);
    ByDigestIsDistinct(entries, |entries|);
    ByDigestIsDistinct(other, |other|);
    MissingHolds(mine, theirs, |mine|, one);
    MissingIsDistinct(mine, theirs, |mine|);
  }

  // --- each match, written out -------------------------------------------------------------

  /** `_identity`: the identity fields of a body, absent ones as null. */
  function IdentityOf(body: Mapping, keys: seq<string>): Mapping {
    map name | name in keys :: Get(body, name)
  }

  /** `partner.label or entry.label`. */
  function OrElse(first: Option<string>, second: Option<string>): Option<string> {
    if first == None || first == Some("") then second else first
  }

  function ChangedFields(was: Mapping, now: Mapping, keys: seq<string>): seq<string> {
    Sorted(set name | name in was.Keys + now.Keys && name !in keys && Get(was, name) != Get(now, name))
  }

  function Describe(section: string, kind: string, keys: seq<string>, one: Match): EntryChange
    requires IsMatch(one, keys)
  {
    if one.came == None then
      var entry := one.gone.value;
      EntryChange(section, kind, Removed, IdentityOf(entry.body, keys), Some(entry.body), None, entry.caption, [])
    else if one.gone == None then
      var entry := one.came.value;
      EntryChange(section, kind, Added, IdentityOf(entry.body, keys), None, Some(entry.body), entry.caption, [])
    else
      var entry, partner := one.gone.value, one.came.value;
      EntryChange(section, kind, Updated, IdentityOf(partner.body, keys), Some(entry.body), Some(partner.body),
                  OrElse(partner.caption, entry.caption), ChangedFields(entry.body, partner.body, keys))
  }

  function Described(section: string, kind: string, keys: seq<string>, matches: seq<Match>): (changes: seq<EntryChange>)
    requires forall i :: 0 <= i < |matches| ==> IsMatch(matches[i], keys)
  {
    seq(|matches|, i requires 0 <= i < |matches| => Describe(section, kind, keys, matches[i]))
  }

  // --- the order ---------------------------------------------------------------------------

  function Rank(change: ChangeKind): nat {
    match change
    case Removed => 0
    case Updated => 1
    case Added => 2
  }

  /** The sort key: the kind of change, then the identity as `render` writes it. */
  function WithKey(change: EntryChange, render: Mapping -> string): Keyed<EntryChange> {
    Keyed(Rank(change.change), render(change.identity), change)
  }

  function WithKeys(changes: seq<EntryChange>, render: Mapping -> string): seq<Keyed<EntryChange>> {
    seq(|changes|, i requires 0 <= i < |changes| => WithKey(changes[i], render))
  }

  function Values<T>(items: seq<Keyed<T>>): seq<T> {
    seq(|items|, i requires 0 <= i < |items| => items[i].value)
  }

  lemma {:induction false} ValuesKeepTheirKeys(changes: seq<EntryChange>, render: Mapping -> string)
    ensures WithKeys(Values(Sort(WithKeys(changes, render))), render) == Sort(WithKeys(changes, render))
  {
    var items := WithKeys(changes, render);
    var sorted := Sort(items);
    SortIsStable(items);
    forall i | 0 <= i < |sorted| ensures sorted[i] == WithKey(sorted[i].value, render) {
      assert sorted[i] in multiset(sorted);
      assert sorted[i] in items;
    }
  }

  /** The list of changes between two sides: a pairing of what went with what came, written out and
      sorted by key. */
  ghost predicate Lists(
    changes: seq<EntryChange>, section: string, kind: string, keys: seq<string>, before: seq<Entry>, after: seq<Entry>,
    render: Mapping -> string)
  {
    exists matches :: Pairs(matches, Gone(before, after), Gone(after, before), keys)
                   && WithKeys(changes, render) == Sort(WithKeys(Described(section, kind, keys, matches), render))
  }

  method DiffEntries(
    section: string, kind: string, keys: seq<string>, before: seq<Entry>, after: seq<Entry>, render: Mapping -> string)
    returns (changes: seq<EntryChange>)
    ensures Lists(changes, section, kind, keys, before, after, render)
  {
    var found := PairUp(Gone(before, after), Gone(after, before), keys);
    var listed: seq<EntryChange> := [];
    for i := 0 to |found|
      invariant listed == Described(section, kind, keys, found)[..i]
    {
      listed := listed + [Describe(section, kind, keys, found[i])];
    }
    assert listed == Described(section, kind, keys, found);
    changes := Values(Sort(WithKeys(listed, render)));
    ValuesKeepTheirKeys(listed, render);
  }

  /** An update names exactly the fields outside the identity that read differently on its two sides, in
      order, and takes its identity and, unless empty, its label from the side that came. */
  lemma {:induction false} UpdatesNameWhatChanged(
    section: string, kind: string, keys: seq<string>, one: Match, name: string)
    requires IsMatch(one, keys) && one.gone.Some? && one.came.Some?
    ensures var change := Describe(section, kind, keys, one);
            var (was, now) := (one.gone.value, one.came.value);
            && (name in change.changedFields <==> name !in keys && Get(was.body, name) != Get(now.body, name))
            && Ascending(change.changedFields)
            && IdentityKey(change.identity, keys) == KeyOf(now, keys) == KeyOf(was, keys)
            && (now.caption.Some? && now.caption.value != "" ==> change.caption == now.caption)
  {
    var change := Describe(section, kind, keys, one);
    forall i | 0 <= i < |keys| ensures IdentityKey(change.identity, keys)[i] == KeyOf(one.came.value, keys)[i] {
      assert Get(change.identity, keys[i]) == Get(one.came.value.body, keys[i]);
    }
  }

  lemma {:induction false} NoneGone(before: seq<Entry>, after: seq<Entry>)
    ensures Gone(before, after) == [] <==> forall i :: 0 <= i < |before| ==> HasDigest(after, before[i].digest)
  {
    if Gone(before, after) != [] {
      var one := Gone(before, after)[0];
      GoneExactly(before, after, one);
      var i: nat :| i < |before| && before[i] == one && IsLastAt(before, |before|, i);
      assert !HasDigest(after, before[i].digest);
    }
    forall i | 0 <= i < |before| && !HasDigest(after, before[i].digest) ensures Gone(before, after) != [] {
      var last := LastOfDigest(before, |before|, i);
      GoneExactly(before, after, before[last]);
    }
  }

  lemma {:induction false} LastOfDigest(entries: seq<Entry>, n: nat, i: nat) returns (last: nat)
    requires i < n <= |entries|
    ensures last < n && entries[last].digest == entries[i].digest && IsLastAt(entries, n, last)
  {
    if i == n - 1 || entries[n - 1].digest == entries[i].digest {
      last := n - 1;
    } else {
      last := LastOfDigest(entries, n - 1, i);
    }
  }

  /** Nothing is reported exactly when the two sides hold the same digests. */
  lemma {:induction false} NothingChangedExactly(
    before: seq<Entry>, after: seq<Entry>, keys: seq<string>, matches: seq<Match>)
    requires Pairs(matches, Gone(before, after), Gone(after, before), keys)
    ensures matches == [] <==>
            && (forall i :: 0 <= i < |before| ==> HasDigest(after, before[i].digest))
            && (forall i :: 0 <= i < |after| ==> HasDigest(before, after[i].digest))
  {
    NoneGone(before, after);
    NoneGone(after, before);
    var gone, came := Gone(before, after), Gone(after, before);
    SidesAreUsedOnce(matches, gone, came, keys);
    if matches == [] {
      assert multiset(gone) == multiset{} && multiset(came) == multiset{};
      assert gone == [] && came == [] by {
        assert |multiset(gone)| == 0 && |multiset(came)| == 0;
      }
    } else {
      assert gone != [] || came != [] by {
        assert MatchesOf(matches, |matches|, keys, MatchKey(matches[|matches| - 1], keys)) != [];
      }
    }
  }
}
