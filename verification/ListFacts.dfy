/** What the pairing guarantees, read off the list of changes that is handed out. */
module ListFacts {
  import opened Prelude
  import opened Documents
  import opened Identity
  import opened EntryDiff
  import opened PairingFacts
  import opened StableSort
  import opened ChangeList

  // --- the list is the matches, written out --------------------------------------------------

  lemma {:induction false} KeysKeepCounts(
    changes: seq<EntryChange>, render: Mapping -> string, n: nat, one: EntryChange)
    requires n <= |changes|
    ensures multiset(WithKeys(changes, render)[..n])[WithKey(one, render)] == multiset(changes[..n])[one]
  {
    var items := WithKeys(changes, render);
    if n > 0 {
      KeysKeepCounts(changes, render, n - 1, one);
      PrefixCount(items, n, WithKey(one, render));
      PrefixCount(changes, n, one);
    }
  }

  lemma {:induction false} ListIsPermutation(
    changes: seq<EntryChange>, described: seq<EntryChange>, render: Mapping -> string)
    requires WithKeys(changes, render) == Sort(WithKeys(described, render))
    ensures multiset(changes) == multiset(described)
  {
    SortIsStable(WithKeys(described, render));
    forall one ensures multiset(changes)[one] == multiset(described)[one] {
      KeysKeepCounts(changes, render, |changes|, one);
      KeysKeepCounts(described, render, |described|, one);
      assert changes[..|changes|] == changes && described[..|described|] == described;
      assert WithKeys(changes, render)[..|changes|] == WithKeys(changes, render);
      assert WithKeys(described, render)[..|described|] == WithKeys(described, render);
    }
  }

  lemma {:induction false} ListedMatches(
    changes: seq<EntryChange>, section: string, kind: string, keys: seq<string>, before: seq<Entry>, after: seq<Entry>,
    render: Mapping -> string)
    returns (matches: seq<Match>)
    requires Lists(changes, section, kind, keys, before, after, render)
    ensures Pairs(matches, Gone(before, after), Gone(after, before), keys)
    ensures multiset(changes) == multiset(Described(section, kind, keys, matches))
  {
    matches :| Pairs(matches, Gone(before, after), Gone(after, before), keys)
               && WithKeys(changes, render) == Sort(WithKeys(Described(section, kind, keys, matches), render));
    ListIsPermutation(changes, Described(section, kind, keys, matches), render);
  }

  // --- every entry once ----------------------------------------------------------------------

  /** The changes whose older side is this document, those whose newer side is, and the entries that are. */
  function Was(body: Mapping): EntryChange -> bool {
    (change: EntryChange) => change.was == Some(body)
  }

  function IsNow(body: Mapping): EntryChange -> bool {
    (change: EntryChange) => change.now == Some(body)
  }

  function Holds(body: Mapping): Entry -> bool {
    (entry: Entry) => entry.body == body
  }

  lemma {:induction false} SidesOneMore(matches: seq<Match>, n: nat, body: Mapping)
    requires 0 < n <= |matches|
    ensures var (sides, fewer) := (GoneSides(matches, n), GoneSides(matches, n - 1));
            CountWhere(sides, Holds(body), |sides|) ==
            CountWhere(fewer, Holds(body), |fewer|)
            + if matches[n - 1].gone.Some? && matches[n - 1].gone.value.body == body then 1 else 0
  {
    var fewer, one := GoneSides(matches, n - 1), matches[n - 1];
    if one.gone.Some? {
      CountWhereJoined(fewer, [one.gone.value], Holds(body), |fewer|);
    }
  }

  lemma {:induction false} DescribeKeepsSides(section: string, kind: string, keys: seq<string>, one: Match)
    requires IsMatch(one, keys)
    ensures Describe(section, kind, keys, one).was == if one.gone.Some? then Some(one.gone.value.body) else None
    ensures Describe(section, kind, keys, one).now == if one.came.Some? then Some(one.came.value.body) else None
  {
  }

  lemma {:induction false} DescribedWas(
    section: string, kind: string, keys: seq<string>, matches: seq<Match>, n: nat, body: Mapping)
    requires n <= |matches| && forall i :: 0 <= i < |matches| ==> IsMatch(matches[i], keys)
    ensures var (described, went) := (Described(section, kind, keys, matches), GoneSides(matches, n));
            CountWhere(described, Was(body), n) == CountWhere(went, Holds(body), |went|)
  {
    if n > 0 {
      DescribedWas(section, kind, keys, matches, n - 1, body);
      SidesOneMore(matches, n, body);
      DescribeKeepsSides(section, kind, keys, matches[n - 1]);
    }
  }

  lemma {:induction false} DescribedNow(
    section: string, kind: string, keys: seq<string>, matches: seq<Match>, n: nat, body: Mapping)
    requires n <= |matches| && forall i :: 0 <= i < |matches| ==> IsMatch(matches[i], keys)
    ensures var (described, came) := (Described(section, kind, keys, matches), GoneSides(Flipped(matches), n));
            CountWhere(described, IsNow(body), n) == CountWhere(came, Holds(body), |came|)
  {
    if n > 0 {
      DescribedNow(section, kind, keys, matches, n - 1, body);
      SidesOneMore(Flipped(matches), n, body);
      DescribeKeepsSides(section, kind, keys, matches[n - 1]);
    }
  }

  /** The list accounts for every entry once: a document is the older side of as many changes as
      entries with it went, and the newer side of as many as came. */
  lemma {:induction false} ListConserves(
    changes: seq<EntryChange>, section: string, kind: string, keys: seq<string>, before: seq<Entry>, after: seq<Entry>,
    render: Mapping -> string, body: Mapping)
    requires Lists(changes, section, kind, keys, before, after, render)
    ensures CountWhere(changes, Was(body), |changes|)
         == CountWhere(Gone(before, after), Holds(body), |Gone(before, after)|)
    ensures CountWhere(changes, IsNow(body), |changes|)
         == CountWhere(Gone(after, before), Holds(body), |Gone(after, before)|)
  {
    var matches := ListedMatches(changes, section, kind, keys, before, after, render);
    var described, gone, came := Described(section, kind, keys, matches), Gone(before, after), Gone(after, before);
    CountWherePermuted(changes, described, Was(body));
    CountWherePermuted(changes, described, IsNow(body));
    DescribedWas(section, kind, keys, matches, |matches|, body);
    DescribedNow(section, kind, keys, matches, |matches|, body);
    SidesAreUsedOnce(matches, gone, came, keys);
    CountWherePermuted(GoneSides(matches, |matches|), gone, Holds(body));
    CountWherePermuted(GoneSides(Flipped(matches), |matches|), came, Holds(body));
  }

  // --- as many updates as an identity allows -------------------------------------------------

  /** The changes of one kind and identity, and the entries of that identity. */
  function IsKind(keys: seq<string>, key: Key, change: ChangeKind): EntryChange -> bool {
    (one: EntryChange) => one.change == change && IdentityKey(one.identity, keys) == key
  }

  function HasKey(keys: seq<string>, key: Key): Entry -> bool {
    (entry: Entry) => KeyOf(entry, keys) == key
  }

  lemma {:induction false} IdentityIsKept(body: Mapping, keys: seq<string>)
    ensures IdentityKey(IdentityOf(body, keys), keys) == IdentityKey(body, keys)
  {
    var identity := IdentityOf(body, keys);
    forall i | 0 <= i < |keys| ensures IdentityKey(identity, keys)[i] == IdentityKey(body, keys)[i] {
      assert Get(identity, keys[i]) == Get(body, keys[i]);
    }
  }

  lemma {:induction false} DescribeKeepsKey(section: string, kind: string, keys: seq<string>, one: Match)
    requires IsMatch(one, keys)
    ensures IdentityKey(Describe(section, kind, keys, one).identity, keys) == MatchKey(one, keys)
    ensures Describe(section, kind, keys, one).change == KindOf(one)
  {
    if one.gone.Some? {
      IdentityIsKept(one.gone.value.body, keys);
    }
    if one.came.Some? {
      IdentityIsKept(one.came.value.body, keys);
    }
  }

  lemma {:induction false} KindCountOfMore(matches: seq<Match>, one: Match, n: nat, change: ChangeKind)
    requires n <= |matches|
    ensures KindCount(matches + [one], n, change) == KindCount(matches, n, change)
  {
    if n > 0 {
      KindCountOfMore(matches, one, n - 1, change);
    }
  }

  lemma {:induction false} KindOneMore(fewer: seq<Match>, one: Match, keys: seq<string>, key: Key, change: ChangeKind)
    ensures var mine := if MatchKey(one, keys) == key then fewer + [one] else fewer;
            KindCount(mine, |mine|, change) ==
            KindCount(fewer, |fewer|, change) + if MatchKey(one, keys) == key && KindOf(one) == change then 1 else 0
  {
    KindCountOfMore(fewer, one, |fewer|, change);
  }

  lemma {:induction false} DescribedKinds(
    section: string, kind: string, keys: seq<string>, matches: seq<Match>, n: nat, key: Key, change: ChangeKind)
    requires n <= |matches| && forall i :: 0 <= i < |matches| ==> IsMatch(matches[i], keys)
    ensures var (described, mine) := (Described(section, kind, keys, matches), MatchesOf(matches, n, keys, key));
            CountWhere(described, IsKind(keys, key, change), n) == KindCount(mine, |mine|, change)
  {
    if n > 0 {
      var described, one := Described(section, kind, keys, matches), matches[n - 1];
      DescribedKinds(section, kind, keys, matches, n - 1, key, change);
      assert IsKind(keys, key, change)(described[n - 1]) <==> MatchKey(one, keys) == key && KindOf(one) == change by {
        DescribeKeepsKey(section, kind, keys, one);
      }
      KindOneMore(MatchesOf(matches, n - 1, keys, key), one, keys, key, change);
    }
  }

  lemma {:induction false} OfKeyCounts(entries: seq<Entry>, n: nat, keys: seq<string>, key: Key)
    requires n <= |entries|
    ensures |OfKey(entries, n, keys, key)| == CountWhere(entries, HasKey(keys, key), n)
  {
    if n > 0 {
      OfKeyCounts(entries, n - 1, keys, key);
    }
  }

  lemma {:induction false} ListedKinds(
    changes: seq<EntryChange>, section: string, kind: string, keys: seq<string>, matches: seq<Match>, key: Key,
    change: ChangeKind)
    requires forall i :: 0 <= i < |matches| ==> IsMatch(matches[i], keys)
    requires multiset(changes) == multiset(Described(section, kind, keys, matches))
    ensures var mine := MatchesOf(matches, |matches|, keys, key);
            CountWhere(changes, IsKind(keys, key, change), |changes|) == KindCount(mine, |mine|, change)
  {
    CountWherePermuted(changes, Described(section, kind, keys, matches), IsKind(keys, key, change));
    DescribedKinds(section, kind, keys, matches, |matches|, key, change);
  }

  /** How many changes of a kind one identity calls for. */
  function Due(change: ChangeKind, went: nat, arrived: nat): nat {
    match change
    case Updated => Min(went, arrived)
    case Removed => Max(0, went - arrived)
    case Added => Max(0, arrived - went)
  }

  lemma {:induction false} MatchesAreDue(
    matches: seq<Match>, gone: seq<Entry>, came: seq<Entry>, keys: seq<string>, key: Key, change: ChangeKind)
    requires Pairs(matches, gone, came, keys)
    ensures var mine := MatchesOf(matches, |matches|, keys, key);
            var (went, arrived) := (OfKey(gone, |gone|, keys, key), OfKey(came, |came|, keys, key));
            KindCount(mine, |mine|, change) == Due(change, |went|, |arrived|)
  {
    UpdatesAreMaximal(matches, gone, came, keys, key);
  }

  /** The list reports as many updates of an identity as the side with fewer of its entries allows,
      and the rest as removed or as added, never both. */
  lemma {:induction false} ListIsMaximal(
    changes: seq<EntryChange>, section: string, kind: string, keys: seq<string>, before: seq<Entry>, after: seq<Entry>,
    render: Mapping -> string, key: Key, change: ChangeKind)
    requires Lists(changes, section, kind, keys, before, after, render)
    ensures var went := CountWhere(Gone(before, after), HasKey(keys, key), |Gone(before, after)|);
            var arrived := CountWhere(Gone(after, before), HasKey(keys, key), |Gone(after, before)|);
            CountWhere(changes, IsKind(keys, key, change), |changes|) == Due(change, went, arrived)
  {
    var gone, came := Gone(before, after), Gone(after, before);
    var matches := ListedMatches(changes, section, kind, keys, before, after, render);
    MatchesAreDue(matches, gone, came, keys, key, change);
    ListedKinds(changes, section, kind, keys, matches, key, change);
    OfKeyCounts(gone, |gone|, keys, key);
    OfKeyCounts(came, |came|, keys, key);
  }

  /** The list is empty exactly when the two sides hold the same digests. */
  lemma {:induction false} ListIsEmptyExactly(
    changes: seq<EntryChange>, section: string, kind: string, keys: seq<string>, before: seq<Entry>, after: seq<Entry>,
    render: Mapping -> string)
    requires Lists(changes, section, kind, keys, before, after, render)
    ensures changes == [] <==>
            && (forall i :: 0 <= i < |before| ==> HasDigest(after, before[i].digest))
            && (forall i :: 0 <= i < |after| ==> HasDigest(before, after[i].digest))
  {
    var matches := ListedMatches(changes, section, kind, keys, before, after, render);
    assert |multiset(changes)| == |multiset(Described(section, kind, keys, matches))|;
    NothingChangedExactly(before, after, keys, matches);
  }

  // --- one list ------------------------------------------------------------------------------

  /** Identities that are rendered alike have one key. */
  ghost predicate Separates(render: Mapping -> string, keys: seq<string>) {
    forall a, b :: render(IdentityOf(a, keys)) == render(IdentityOf(b, keys)) ==> IdentityKey(a, keys) == IdentityKey(b, keys)
  }

  /** A match written out, with its sort key. */
  function Line(section: string, kind: string, keys: seq<string>, one: Match, render: Mapping -> string): Keyed<EntryChange>
    requires IsMatch(one, keys)
  {
    WithKey(Describe(section, kind, keys, one), render)
  }

  function Lines(section: string, kind: string, keys: seq<string>, matches: seq<Match>, render: Mapping -> string)
    : (lines: seq<Keyed<EntryChange>>)
    requires forall i :: 0 <= i < |matches| ==> IsMatch(matches[i], keys)
    ensures |lines| == |matches|
    ensures forall i :: 0 <= i < |matches| ==> lines[i] == Line(section, kind, keys, matches[i], render)
  {
    WithKeys(Described(section, kind, keys, matches), render)
  }

  /** The body whose identity a change carries. */
  function Bearer(one: Match): Mapping
    requires one.gone.Some? || one.came.Some?
  {
    if one.came.Some? then one.came.value.body else one.gone.value.body
  }

  lemma {:induction false} SameLineSameKey(
    section: string, kind: string, keys: seq<string>, a: Match, b: Match, render: Mapping -> string)
    requires IsMatch(a, keys) && IsMatch(b, keys) && Separates(render, keys)
    requires SameKey(Line(section, kind, keys, a, render), Line(section, kind, keys, b, render))
    ensures MatchKey(a, keys) == MatchKey(b, keys)
  {
    assert render(IdentityOf(Bearer(a), keys)) == render(IdentityOf(Bearer(b), keys));
    assert IdentityKey(Bearer(a), keys) == MatchKey(a, keys) && IdentityKey(Bearer(b), keys) == MatchKey(b, keys);
  }

  lemma {:induction false} TiesOfMoreLines(
    section: string, kind: string, keys: seq<string>, matches: seq<Match>, one: Match, render: Mapping -> string,
    line: Keyed<EntryChange>)
    requires IsMatch(one, keys) && forall i :: 0 <= i < |matches| ==> IsMatch(matches[i], keys)
    ensures var (lines, more) := (Lines(section, kind, keys, matches, render),
                                  Lines(section, kind, keys, matches + [one], render));
            Ties(more, line, |matches| + 1) == Ties(lines, line, |matches|)
            + if SameKey(Line(section, kind, keys, one, render), line) then [Line(section, kind, keys, one, render)] else []
  {
    var lines := Lines(section, kind, keys, matches, render);
    TiesOfPrefix(lines, Lines(section, kind, keys, matches + [one], render), line, |matches|);
  }

  lemma {:induction false} TiesStep(
    section: string, kind: string, keys: seq<string>, all: seq<Keyed<EntryChange>>, n: nat, last: Match, own: Match,
    fewer: seq<Match>, mine: seq<Match>, render: Mapping -> string, line: Keyed<EntryChange>)
    requires IsMatch(last, keys) && IsMatch(own, keys) && forall i :: 0 <= i < |fewer| ==> IsMatch(fewer[i], keys)
    requires Separates(render, keys) && line == Line(section, kind, keys, own, render)
    requires 0 < n <= |all| && all[n - 1] == Line(section, kind, keys, last, render)
    requires mine == if MatchKey(last, keys) == MatchKey(own, keys) then fewer + [last] else fewer
    requires Ties(all, line, n - 1) == Ties(Lines(section, kind, keys, fewer, render), line, |fewer|)
    ensures Ties(all, line, n) == Ties(Lines(section, kind, keys, mine, render), line, |mine|)
  {
    if MatchKey(last, keys) == MatchKey(own, keys) {
      TiesOfMoreLines(section, kind, keys, fewer, last, render, line);
    } else if SameKey(all[n - 1], line) {
      SameLineSameKey(section, kind, keys, last, own, render);
    }
  }

  /** Lines with the sort key of a match of one identity are that identity's lines with it. */
  lemma {:induction false} TiesWithinKey(
    section: string, kind: string, keys: seq<string>, matches: seq<Match>, n: nat, render: Mapping -> string, own: Match,
    mine: seq<Match>, all: seq<Keyed<EntryChange>>, line: Keyed<EntryChange>)
    requires n <= |matches| && forall i :: 0 <= i < |matches| ==> IsMatch(matches[i], keys)
    requires IsMatch(own, keys) && Separates(render, keys) && mine == MatchesOf(matches, n, keys, MatchKey(own, keys))
    requires all == Lines(section, kind, keys, matches, render) && line == Line(section, kind, keys, own, render)
    ensures forall i :: 0 <= i < |mine| ==> IsMatch(mine[i], keys)
    ensures Ties(all, line, n) == Ties(Lines(section, kind, keys, mine, render), line, |mine|)
  {
    if n > 0 {
      var fewer := MatchesOf(matches, n - 1, keys, MatchKey(own, keys));
      TiesWithinKey(section, kind, keys, matches, n - 1, render, own, fewer, all, line);
      TiesStep(section, kind, keys, all, n, matches[n - 1], own, fewer, mine, render, line);
    }
  }

  lemma {:induction false} SameTiesOfPairings(
    section: string, kind: string, keys: seq<string>, a: seq<Match>, b: seq<Match>, gone: seq<Entry>, came: seq<Entry>,
    render: Mapping -> string, own: Match)
    requires Pairs(a, gone, came, keys) && Pairs(b, gone, came, keys) && IsMatch(own, keys) && Separates(render, keys)
    ensures Ties(Lines(section, kind, keys, a, render), Line(section, kind, keys, own, render), |a|)
         == Ties(Lines(section, kind, keys, b, render), Line(section, kind, keys, own, render), |b|)
  {
    var key, line := MatchKey(own, keys), Line(section, kind, keys, own, render);
    var mine := MatchesOf(a, |a|, keys, key);
    assert mine == MatchesOf(b, |b|, keys, key);
    TiesWithinKey(section, kind, keys, a, |a|, render, own, mine, Lines(section, kind, keys, a, render), line);
    TiesWithinKey(section, kind, keys, b, |b|, render, own, mine, Lines(section, kind, keys, b, render), line);
  }

  lemma {:induction false} NoTies<T>(items: seq<Keyed<T>>, one: Keyed<T>, n: nat)
    requires n <= |items| && forall i :: 0 <= i < n ==> !SameKey(items[i], one)
    ensures Ties(items, one, n) == []
  {
    if n > 0 {
      NoTies(items, one, n - 1);
    }
  }

  lemma {:induction false} TiesBySameKey<T>(items: seq<Keyed<T>>, a: Keyed<T>, b: Keyed<T>, n: nat)
    requires n <= |items| && SameKey(a, b)
    ensures Ties(items, a, n) == Ties(items, b, n)
  {
    if n > 0 {
      TiesBySameKey(items, a, b, n - 1);
    }
  }

  lemma {:induction false} OnePairingTies(
    section: string, kind: string, keys: seq<string>, a: seq<Match>, b: seq<Match>, gone: seq<Entry>, came: seq<Entry>,
    render: Mapping -> string, line: Keyed<EntryChange>)
    requires Pairs(a, gone, came, keys) && Pairs(b, gone, came, keys) && Separates(render, keys)
    requires exists i :: 0 <= i < |a| && SameKey(Lines(section, kind, keys, a, render)[i], line)
    ensures Ties(Lines(section, kind, keys, a, render), line, |a|) == Ties(Lines(section, kind, keys, b, render), line, |b|)
  {
    var i :| 0 <= i < |a| && SameKey(Lines(section, kind, keys, a, render)[i], line);
    var own := Line(section, kind, keys, a[i], render);
    SameTiesOfPairings(section, kind, keys, a, b, gone, came, render, a[i]);
    TiesBySameKey(Lines(section, kind, keys, a, render), own, line, |a|);
    TiesBySameKey(Lines(section, kind, keys, b, render), own, line, |b|);
  }

  lemma {:induction false} PairingsTie(
    section: string, kind: string, keys: seq<string>, a: seq<Match>, b: seq<Match>, gone: seq<Entry>, came: seq<Entry>,
    render: Mapping -> string, line: Keyed<EntryChange>)
    requires Pairs(a, gone, came, keys) && Pairs(b, gone, came, keys) && Separates(render, keys)
    ensures Ties(Lines(section, kind, keys, a, render), line, |a|) == Ties(Lines(section, kind, keys, b, render), line, |b|)
  {
    var these, those := Lines(section, kind, keys, a, render), Lines(section, kind, keys, b, render);
    if exists i :: 0 <= i < |a| && SameKey(these[i], line) {
      OnePairingTies(section, kind, keys, a, b, gone, came, render, line);
    } else if exists i :: 0 <= i < |b| && SameKey(those[i], line) {
      OnePairingTies(section, kind, keys, b, a, gone, came, render, line);
    } else {
      NoTies(these, line, |a|);
      NoTies(those, line, |b|);
    }
  }

  lemma {:induction false} SameKeysSameList(a: seq<EntryChange>, b: seq<EntryChange>, render: Mapping -> string)
    requires WithKeys(a, render) == WithKeys(b, render)
    ensures a == b
  {
    assert |a| == |WithKeys(a, render)| && |b| == |WithKeys(b, render)|;
    forall i | 0 <= i < |a| ensures a[i] == b[i] {
      assert WithKeys(a, render)[i].value == WithKeys(b, render)[i].value;
    }
  }

  /** The order is deterministic: where identities that are rendered alike are one, the two sides leave
      a single list. */
  lemma {:induction false} ListIsDetermined(
    a: seq<EntryChange>, b: seq<EntryChange>, section: string, kind: string, keys: seq<string>, before: seq<Entry>,
    after: seq<Entry>, render: Mapping -> string)
    requires Lists(a, section, kind, keys, before, after, render) && Lists(b, section, kind, keys, before, after, render)
    requires Separates(render, keys)
    ensures a == b
  {
    var gone, came := Gone(before, after), Gone(after, before);
    var these: seq<Match> :| Pairs(these, gone, came, keys)
      && WithKeys(a, render) == Sort(WithKeys(Described(section, kind, keys, these), render));
    var those: seq<Match> :| Pairs(those, gone, came, keys)
      && WithKeys(b, render) == Sort(WithKeys(Described(section, kind, keys, those), render));
    SortedAlike(section, kind, keys, these, those, gone, came, render);
    SameKeysSameList(a, b, render);
  }

  lemma {:induction false} SortedAlike(
    section: string, kind: string, keys: seq<string>, a: seq<Match>, b: seq<Match>, gone: seq<Entry>, came: seq<Entry>,
    render: Mapping -> string)
    requires Pairs(a, gone, came, keys) && Pairs(b, gone, came, keys) && Separates(render, keys)
    ensures Sort(Lines(section, kind, keys, a, render)) == Sort(Lines(section, kind, keys, b, render))
  {
    var these, those := Lines(section, kind, keys, a, render), Lines(section, kind, keys, b, render);
    SortIsStable(these);
    SortIsStable(those);
    var first, second := Sort(these), Sort(those);
    forall line: Keyed<EntryChange> ensures Ties(first, line, |first|) == Ties(second, line, |second|) {
      assert Ties(these, line, |these|) == Ties(first, line, |these|);
      assert Ties(those, line, |those|) == Ties(second, line, |those|);
      PairingsTie(section, kind, keys, a, b, gone, came, render, line);
    }
    OrderedByTies(first, second);
  }

  // --- what a change says --------------------------------------------------------------------

  /** A change says of its sides what they are: which there are, the identity both share, and for an
      update exactly the fields outside the identity that read differently, in order. */
  ghost predicate Tells(change: EntryChange, section: string, kind: string, keys: seq<string>) {
    && change.section == section && change.kind == kind
    && (change.change == Removed <==> change.was.Some? && change.now == None)
    && (change.change == Added <==> change.was == None && change.now.Some?)
    && (change.change == Updated <==> change.was.Some? && change.now.Some?)
    && (change.now.Some? ==> change.identity == IdentityOf(change.now.value, keys))
    && (change.was.Some? && change.now == None ==> change.identity == IdentityOf(change.was.value, keys))
    && (change.was.Some? ==> IdentityKey(change.was.value, keys) == IdentityKey(change.identity, keys))
    && (change.now.Some? ==> IdentityKey(change.now.value, keys) == IdentityKey(change.identity, keys))
    && Ascending(change.changedFields)
    && (forall name :: name in change.changedFields <==>
          change.change == Updated && name !in keys && Get(change.was.value, name) != Get(change.now.value, name))
  }

  lemma {:induction false} DescribeTells(section: string, kind: string, keys: seq<string>, one: Match)
    requires IsMatch(one, keys)
    ensures Tells(Describe(section, kind, keys, one), section, kind, keys)
  {
    DescribeKeepsKey(section, kind, keys, one);
    if one.gone.Some? && one.came.Some? {
      forall name
        ensures name in Describe(section, kind, keys, one).changedFields <==>
                  name !in keys && Get(one.gone.value.body, name) != Get(one.came.value.body, name)
      {
        UpdatesNameWhatChanged(section, kind, keys, one, name);
      }
    }
  }

  /** The label a side gives, where it is not empty. */
  predicate IsLabelled(entry: Entry) {
    entry.caption.Some? && entry.caption.value != ""
  }

  /** The change is what became of these entries: its sides are theirs, and so is its label, that of the
      entry that came unless it has none. */
  predicate IsOf(change: EntryChange, gone: Option<Entry>, came: Option<Entry>, keys: seq<string>) {
    && change.was == (if gone.Some? then Some(gone.value.body) else None)
    && change.now == (if came.Some? then Some(came.value.body) else None)
    && (gone.Some? && came.Some? ==> KeyOf(gone.value, keys) == KeyOf(came.value, keys))
    && (came.Some? && (gone == None || IsLabelled(came.value)) ==> change.caption == came.value.caption)
    && (gone.Some? && (came == None || !IsLabelled(came.value)) ==> change.caption == gone.value.caption)
  }

  /** Some entries that went and came stand behind the change. */
  ghost predicate StandsFor(change: EntryChange, went: seq<Entry>, arrived: seq<Entry>, keys: seq<string>) {
    exists one: Match :: IsOf(change, one.gone, one.came, keys)
             && (one.gone.Some? ==> one.gone.value in went) && (one.came.Some? ==> one.came.value in arrived)
  }

  lemma {:induction false} GoneSideIsIn(matches: seq<Match>, n: nat, i: nat)
    requires i < n <= |matches| && matches[i].gone.Some?
    ensures matches[i].gone.value in GoneSides(matches, n)
  {
    if i < n - 1 {
      GoneSideIsIn(matches, n - 1, i);
    }
  }

  lemma {:induction false} MatchIsOfSides(
    matches: seq<Match>, went: seq<Entry>, arrived: seq<Entry>, keys: seq<string>, i: nat)
    requires Pairs(matches, went, arrived, keys) && i < |matches|
    ensures matches[i].gone.Some? ==> matches[i].gone.value in went
    ensures matches[i].came.Some? ==> matches[i].came.value in arrived
  {
    SidesAreUsedOnce(matches, went, arrived, keys);
    if matches[i].gone.Some? {
      GoneSideIsIn(matches, |matches|, i);
      assert matches[i].gone.value in multiset(GoneSides(matches, |matches|));
    }
    if matches[i].came.Some? {
      assert Flipped(matches)[i].gone == matches[i].came;
      GoneSideIsIn(Flipped(matches), |matches|, i);
      assert matches[i].came.value in multiset(GoneSides(Flipped(matches), |matches|));
    }
  }

  /** Every change on the list says what it stands for: an entry that went, one that came, or two of one
      identity, with their documents and their label. */
  lemma {:induction false} ListTells(
    changes: seq<EntryChange>, section: string, kind: string, keys: seq<string>, before: seq<Entry>, after: seq<Entry>,
    render: Mapping -> string, change: EntryChange)
    requires Lists(changes, section, kind, keys, before, after, render) && change in changes
    ensures Tells(change, section, kind, keys)
    ensures StandsFor(change, Gone(before, after), Gone(after, before), keys)
  {
    var matches := ListedMatches(changes, section, kind, keys, before, after, render);
    var described := Described(section, kind, keys, matches);
    assert change in multiset(changes);
    assert change in multiset(described);
    var i :| 0 <= i < |described| && described[i] == change;
    DescribeTells(section, kind, keys, matches[i]);
    MatchIsOfSides(matches, Gone(before, after), Gone(after, before), keys, i);
    assert IsOf(change, matches[i].gone, matches[i].came, keys);
  }

  // --- the order -----------------------------------------------------------------------------

  /** Removals before updates before additions, and within one of these by the identity as written. */
  predicate Before(a: EntryChange, b: EntryChange, render: Mapping -> string) {
    || (a.change == Removed && b.change != Removed)
    || (a.change == Updated && b.change == Added)
    || (a.change == b.change && Less(render(a.identity), render(b.identity)))
  }

  /** No change on the list comes before one that stands ahead of it. */
  lemma {:induction false} ListIsOrdered(
    changes: seq<EntryChange>, section: string, kind: string, keys: seq<string>, before: seq<Entry>, after: seq<Entry>,
    render: Mapping -> string, i: nat, j: nat)
    requires Lists(changes, section, kind, keys, before, after, render) && i < j < |changes|
    ensures !Before(changes[j], changes[i], render)
  {
    var matches: seq<Match> :| Pairs(matches, Gone(before, after), Gone(after, before), keys)
      && WithKeys(changes, render) == Sort(WithKeys(Described(section, kind, keys, matches), render));
    SortIsStable(WithKeys(Described(section, kind, keys, matches), render));
    var items := WithKeys(changes, render);
    assert !Precedes(items[j], items[i]);
  }
}
