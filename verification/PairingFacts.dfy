/** What the pairing guarantees: every entry once, as many updates as an identity allows, the mirror
    image when the sides are exchanged; and the order the changes are listed in. */
module PairingFacts {
  import opened Prelude
  import opened Identity
  import opened EntryDiff

  // --- one multiset ------------------------------------------------------------------------

  lemma {:induction false} PrefixCount<T>(items: seq<T>, n: nat, one: T)
    requires 0 < n <= |items|
    ensures multiset(items[..n])[one] == multiset(items[..n - 1])[one] + if items[n - 1] == one then 1 else 0
  {
    assert items[..n] == items[..n - 1] + [items[n - 1]];
    CountOneMore(items[..n - 1], items[n - 1], one);
  }

  /** A match is among the matches of its identity, `mine`, as often as among them all. */
  lemma {:induction false} CountWithinKey(
    matches: seq<Match>, n: nat, keys: seq<string>, one: Match, key: Key, mine: seq<Match>)
    requires n <= |matches| && key == MatchKey(one, keys) && mine == MatchesOf(matches, n, keys, key)
    ensures multiset(matches[..n])[one] == multiset(mine)[one]
  {
    if n > 0 {
      var earlier, last := MatchesOf(matches, n - 1, keys, key), matches[n - 1];
      CountWithinKey(matches, n - 1, keys, one, key, earlier);
      PrefixCount(matches, n, one);
      if MatchKey(last, keys) == key {
        CountOneMore(earlier, last, one);
      }
    }
  }

  /** The pairing is determined: any two lists that pair the same entries hold the same matches. */
  lemma {:induction false} PairingIsDetermined(
    a: seq<Match>, b: seq<Match>, gone: seq<Entry>, came: seq<Entry>, keys: seq<string>)
    requires Pairs(a, gone, came, keys) && Pairs(b, gone, came, keys)
    ensures multiset(a) == multiset(b)
  {
    forall one ensures multiset(a)[one] == multiset(b)[one] {
      var key := MatchKey(one, keys);
      CountWithinKey(a, |a|, keys, one, key, MatchesOf(a, |a|, keys, key));
      CountWithinKey(b, |b|, keys, one, key, MatchesOf(b, |b|, keys, key));
      assert a[..|a|] == a && b[..|b|] == b;
    }
  }

  // --- the mirror image --------------------------------------------------------------------

  function Flipped(matches: seq<Match>): seq<Match> {
    seq(|matches|, i requires 0 <= i < |matches| => Match(matches[i].came, matches[i].gone))
  }

  lemma {:induction false} FlippedKeepsKey(one: Match, keys: seq<string>)
    requires IsMatch(one, keys)
    ensures MatchKey(Match(one.came, one.gone), keys) == MatchKey(one, keys)
  {
  }

  lemma {:induction false} FlippedOneMore(matches: seq<Match>, one: Match)
    ensures Flipped(matches + [one]) == Flipped(matches) + [Match(one.came, one.gone)]
  {
  }

  lemma {:induction false} FlippedOf(matches: seq<Match>, n: nat, keys: seq<string>, key: Key)
    requires n <= |matches| && forall i :: 0 <= i < |matches| ==> IsMatch(matches[i], keys)
    ensures MatchesOf(Flipped(matches), n, keys, key) == Flipped(MatchesOf(matches, n, keys, key))
  {
    if n > 0 {
      FlippedOf(matches, n - 1, keys, key);
      FlippedKeepsKey(matches[n - 1], keys);
      FlippedOneMore(MatchesOf(matches, n - 1, keys, key), matches[n - 1]);
    }
  }

  lemma {:induction false} FlippedPairs(matches: seq<Match>, gone: seq<Entry>, came: seq<Entry>, keys: seq<string>)
    requires Pairs(matches, gone, came, keys)
    ensures Pairs(Flipped(matches), came, gone, keys)
  {
    forall i | 0 <= i < |matches| ensures IsMatch(Flipped(matches)[i], keys) {
      assert IsMatch(matches[i], keys);
    }
    forall key
      ensures MatchesOf(Flipped(matches), |matches|, keys, key)
           == Zip(OfKey(came, |came|, keys, key), OfKey(gone, |gone|, keys, key))
    {
      FlippedOf(matches, |matches|, keys, key);
      FlippedZip(OfKey(gone, |gone|, keys, key), OfKey(came, |came|, keys, key));
    }
  }

  lemma {:induction false} FlippedZip(gone: seq<Entry>, came: seq<Entry>)
    ensures Flipped(Zip(gone, came)) == Zip(came, gone)
  {
  }

  /** Exchanging the two sides turns every removal into an addition, every addition into a removal,
      and every update round. */
  lemma {:induction false} ExchangingSidesFlips(
    there: seq<Match>, back: seq<Match>, before: seq<Entry>, after: seq<Entry>, keys: seq<string>)
    requires Pairs(there, Gone(before, after), Gone(after, before), keys)
    requires Pairs(back, Gone(after, before), Gone(before, after), keys)
    ensures multiset(back) == multiset(Flipped(there))
  {
    FlippedPairs(there, Gone(before, after), Gone(after, before), keys);
    PairingIsDetermined(back, Flipped(there), Gone(after, before), Gone(before, after), keys);
  }

  // --- every entry once --------------------------------------------------------------------

  function GoneSides(matches: seq<Match>, n: nat): seq<Entry>
    requires n <= |matches|
  {
    if n == 0 then []
    else
      var earlier := GoneSides(matches, n - 1);
      if matches[n - 1].gone.Some? then earlier + [matches[n - 1].gone.value] else earlier
  }

  lemma {:induction false} OfKeyJoined(entries: seq<Entry>, entry: Entry, keys: seq<string>, key: Key, n: nat)
    requires n <= |entries|
    ensures OfKey(entries + [entry], n, keys, key) == OfKey(entries, n, keys, key)
  {
    if n > 0 {
      OfKeyJoined(entries, entry, keys, key, n - 1);
      assert (entries + [entry])[n - 1] == entries[n - 1];
    }
  }

  lemma {:induction false} GoneSidesOf(matches: seq<Match>, n: nat, keys: seq<string>, key: Key)
    requires n <= |matches|
    ensures OfKey(GoneSides(matches, n), |GoneSides(matches, n)|, keys, key)
         == GoneSides(MatchesOf(matches, n, keys, key), |MatchesOf(matches, n, keys, key)|)
  {
    if n > 0 {
      var one, earlier, fewer := matches[n - 1], GoneSides(matches, n - 1), MatchesOf(matches, n - 1, keys, key);
      assert OfKey(earlier, |earlier|, keys, key) == GoneSides(fewer, |fewer|) by {
        GoneSidesOf(matches, n - 1, keys, key);
      }
      GoneSidesStep(earlier, fewer, one, keys, key);
    }
  }

  lemma {:induction false} GoneSidesStep(
    earlier: seq<Entry>, fewer: seq<Match>, one: Match, keys: seq<string>, key: Key)
    requires OfKey(earlier, |earlier|, keys, key) == GoneSides(fewer, |fewer|)
    ensures var sides := if one.gone.Some? then earlier + [one.gone.value] else earlier;
            var mine := if MatchKey(one, keys) == key then fewer + [one] else fewer;
            OfKey(sides, |sides|, keys, key) == GoneSides(mine, |mine|)
  {
    GoneSidesOneMore(fewer, one);
    if one.gone.Some? {
      OfKeyOneMore(earlier, one, keys, key);
    }
  }

  lemma {:induction false} GoneSidesOneMore(fewer: seq<Match>, one: Match)
    ensures GoneSides(fewer + [one], |fewer + [one]|)
         == if one.gone.Some? then GoneSides(fewer, |fewer|) + [one.gone.value] else GoneSides(fewer, |fewer|)
  {
    GoneSidesPrefix(fewer, one, |fewer|);
  }

  lemma {:induction false} OfKeyOneMore(sides: seq<Entry>, one: Match, keys: seq<string>, key: Key)
    requires one.gone.Some?
    ensures OfKey(sides + [one.gone.value], |sides| + 1, keys, key)
         == if MatchKey(one, keys) == key then OfKey(sides, |sides|, keys, key) + [one.gone.value]
            else OfKey(sides, |sides|, keys, key)
  {
    OfKeyJoined(sides, one.gone.value, keys, key, |sides|);
  }

  lemma {:induction false} GoneSidesPrefix(matches: seq<Match>, one: Match, n: nat)
    requires n <= |matches|
    ensures GoneSides(matches + [one], n) == GoneSides(matches, n)
  {
    if n > 0 {
      GoneSidesPrefix(matches, one, n - 1);
      assert (matches + [one])[n - 1] == matches[n - 1];
    }
  }

  lemma {:induction false} GoneSidesOfZip(gone: seq<Entry>, came: seq<Entry>, n: nat)
    requires n <= Max(|gone|, |came|)
    ensures GoneSides(Zip(gone, came), n) == gone[..Min(n, |gone|)]
  {
    if n > 0 {
      GoneSidesOfZip(gone, came, n - 1);
    }
  }

  lemma {:induction false} EntriesWithinKey(
    entries: seq<Entry>, n: nat, keys: seq<string>, entry: Entry, key: Key, mine: seq<Entry>)
    requires n <= |entries| && key == KeyOf(entry, keys) && mine == OfKey(entries, n, keys, key)
    ensures multiset(entries[..n])[entry] == multiset(mine)[entry]
  {
    if n > 0 {
      var earlier, last := OfKey(entries, n - 1, keys, key), entries[n - 1];
      EntriesWithinKey(entries, n - 1, keys, entry, key, earlier);
      PrefixCount(entries, n, entry);
      if KeyOf(last, keys) == key {
        CountOneMore(earlier, last, entry);
      }
    }
  }

  /** The sides that went, over all the matches, are the entries that went, each used once. */
  lemma {:induction false} GoneSidesAreGone(matches: seq<Match>, gone: seq<Entry>, came: seq<Entry>, keys: seq<string>)
    requires Pairs(matches, gone, came, keys)
    ensures multiset(GoneSides(matches, |matches|)) == multiset(gone)
  {
    var sides := GoneSides(matches, |matches|);
    forall entry ensures multiset(sides)[entry] == multiset(gone)[entry] {
      var key := KeyOf(entry, keys);
      GoneSidesOf(matches, |matches|, keys, key);
      var went, arrived := OfKey(gone, |gone|, keys, key), OfKey(came, |came|, keys, key);
      GoneSidesOfZip(went, arrived, |Zip(went, arrived)|);
      assert went[..|went|] == went && gone[..|gone|] == gone && sides[..|sides|] == sides;
      EntriesWithinKey(gone, |gone|, keys, entry, key, went);
      EntriesWithinKey(sides, |sides|, keys, entry, key, OfKey(sides, |sides|, keys, key));
    }
  }

  /** Both sides: what went is used up by removals and updates, what came by additions and updates. */
  lemma {:induction false} SidesAreUsedOnce(matches: seq<Match>, gone: seq<Entry>, came: seq<Entry>, keys: seq<string>)
    requires Pairs(matches, gone, came, keys)
    ensures multiset(GoneSides(matches, |matches|)) == multiset(gone)
    ensures multiset(GoneSides(Flipped(matches), |matches|)) == multiset(came)
  {
    GoneSidesAreGone(matches, gone, came, keys);
    FlippedPairs(matches, gone, came, keys);
    GoneSidesAreGone(Flipped(matches), came, gone, keys);
  }

  // --- as many updates as an identity allows -----------------------------------------------

  function KindOf(one: Match): ChangeKind {
    if one.came == None then Removed else if one.gone == None then Added else Updated
  }

  function KindCount(matches: seq<Match>, n: nat, kind: ChangeKind): nat
    requires n <= |matches|
  {
    if n == 0 then 0 else KindCount(matches, n - 1, kind) + if KindOf(matches[n - 1]) == kind then 1 else 0
  }

  lemma {:induction false} ZipCounts(gone: seq<Entry>, came: seq<Entry>, n: nat)
    requires n <= Max(|gone|, |came|)
    ensures KindCount(Zip(gone, came), n, Updated) == Min(n, Min(|gone|, |came|))
    ensures KindCount(Zip(gone, came), n, Removed) == Max(0, Min(n, |gone|) - |came|)
    ensures KindCount(Zip(gone, came), n, Added) == Max(0, Min(n, |came|) - |gone|)
  {
    if n > 0 {
      ZipCounts(gone, came, n - 1);
    }
  }

  /** Of one identity there are as many updates as the shorter side has entries, and what is left
      over is all removed or all added. */
  lemma {:induction false} UpdatesAreMaximal(
    matches: seq<Match>, gone: seq<Entry>, came: seq<Entry>, keys: seq<string>, key: Key)
    requires Pairs(matches, gone, came, keys)
    ensures var mine := MatchesOf(matches, |matches|, keys, key);
            var (went, arrived) := (|OfKey(gone, |gone|, keys, key)|, |OfKey(came, |came|, keys, key)|);
            && KindCount(mine, |mine|, Updated) == Min(went, arrived)
            && KindCount(mine, |mine|, Removed) == Max(0, went - arrived)
            && KindCount(mine, |mine|, Added) == Max(0, arrived - went)
  {
    var went, arrived := OfKey(gone, |gone|, keys, key), OfKey(came, |came|, keys, key);
    ZipCounts(went, arrived, |Zip(went, arrived)|);
  }
}
