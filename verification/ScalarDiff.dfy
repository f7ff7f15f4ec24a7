/** The comparison of two scalar sections: what an empty list of changes means, and that the changes
    carry one side to the other. */
module ScalarDiff {
  import opened Prelude
  import opened Documents
  import opened Flatten

  datatype FieldChange = FieldChange(section: string, field: string, was: Value, now: Value)

  predicate FieldsAscend(changes: seq<FieldChange>) {
    forall i, j :: 0 <= i < j < |changes| ==> Less(changes[i].field, changes[j].field)
  }

  predicate Reports(section: string, before: Leaves, after: Leaves, change: FieldChange) {
    && change == FieldChange(section, change.field, Get(before, change.field), Get(after, change.field))
    && change.was != change.now
  }

  predicate Mentions(changes: seq<FieldChange>, path: string) {
    exists i :: 0 <= i < |changes| && changes[i].field == path
  }

  /** One change for each path that reads differently on the two sides, in path order. */
  ghost predicate Tallies(section: string, before: Leaves, after: Leaves, changes: seq<FieldChange>) {
    && FieldsAscend(changes)
    && (forall i :: 0 <= i < |changes| ==> Reports(section, before, after, changes[i]))
    && (forall path :: Mentions(changes, path) <==> Get(before, path) != Get(after, path))
  }

  /** The changes at the first `n` of some paths. */
  function ChangesAt(section: string, before: Leaves, after: Leaves, paths: seq<string>, n: nat): seq<FieldChange>
    requires n <= |paths|
  {
    if n == 0 then []
    else
      var was, now := Get(before, paths[n - 1]), Get(after, paths[n - 1]);
      var earlier := ChangesAt(section, before, after, paths, n - 1);
      if was == now then earlier else earlier + [FieldChange(section, paths[n - 1], was, now)]
  }

  predicate Differs(before: Leaves, after: Leaves, path: string) {
    Get(before, path) != Get(after, path)
  }

  lemma {:induction false} ChangesAtMention(
    section: string, before: Leaves, after: Leaves, paths: seq<string>, n: nat, path: string)
    requires n <= |paths|
    ensures Mentions(ChangesAt(section, before, after, paths, n), path)
       <==> path in paths[..n] && Differs(before, after, path)
  {
    if n > 0 {
      ChangesAtMention(section, before, after, paths, n - 1, path);
      var last := paths[n - 1];
      assert paths[..n] == paths[..n - 1] + [last];
      MentionsMore(ChangesAt(section, before, after, paths, n - 1),
                   FieldChange(section, last, Get(before, last), Get(after, last)));
    }
  }

  lemma {:induction false} ChangesAtTally(section: string, before: Leaves, after: Leaves, paths: seq<string>, n: nat)
    requires n <= |paths| && Ascending(paths)
    ensures var changes := ChangesAt(section, before, after, paths, n);
            && FieldsAscend(changes)
            && (forall i :: 0 <= i < |changes| ==> Reports(section, before, after, changes[i]))
  {
    if n > 0 {
      ChangesAtTally(section, before, after, paths, n - 1);
      var fewer := ChangesAt(section, before, after, paths, n - 1);
      forall i | 0 <= i < |fewer| ensures Less(fewer[i].field, paths[n - 1]) {
        assert Mentions(fewer, fewer[i].field);
        ChangesAtMention(section, before, after, paths, n - 1, fewer[i].field);
      }
    }
  }

  lemma {:induction false} AllChangesTally(section: string, before: Leaves, after: Leaves, paths: seq<string>)
    requires Ascending(paths) && forall path :: path in paths <==> path in before.Keys + after.Keys
    ensures Tallies(section, before, after, ChangesAt(section, before, after, paths, |paths|))
  {
    var changes := ChangesAt(section, before, after, paths, |paths|);
    ChangesAtTally(section, before, after, paths, |paths|);
    forall path ensures Mentions(changes, path) <==> Get(before, path) != Get(after, path) {
      ChangesAtMention(section, before, after, paths, |paths|, path);
      assert paths[..|paths|] == paths;
    }
  }

  method DiffScalar(section: string, earlier: Document, later: Document) returns (changes: seq<FieldChange>)
    ensures Tallies(section, LeavesIn(earlier, []), LeavesIn(later, []), changes)
  {
    var before := FlattenTo(earlier, []);
    var after := FlattenTo(later, []);
    var paths := Sorted(before.Keys + after.Keys);
    changes := [];
    for i := 0 to |paths|
      invariant changes == ChangesAt(section, before, after, paths, i)
    {
      if Get(before, paths[i]) != Get(after, paths[i]) {
        changes := changes + [FieldChange(section, paths[i], Get(before, paths[i]), Get(after, paths[i]))];
      }
    }
    AllChangesTally(section, before, after, paths);
  }

  lemma {:induction false} MentionsMore(changes: seq<FieldChange>, change: FieldChange)
    ensures forall path :: Mentions(changes + [change], path) <==> Mentions(changes, path) || path == change.field
  {
    forall path ensures Mentions(changes + [change], path) <==> Mentions(changes, path) || path == change.field {
      assert (changes + [change])[|changes|] == change;
      if Mentions(changes, path) {
        var i :| 0 <= i < |changes| && changes[i].field == path;
        assert (changes + [change])[i].field == path;
      }
    }
  }

  function PathsOf(changes: seq<FieldChange>): seq<string> {
    seq(|changes|, i requires 0 <= i < |changes| => changes[i].field)
  }

  /** The two sides leave one answer: the changes and their order are determined. */
  lemma {:induction false} ChangesAreDetermined(
    section: string, before: Leaves, after: Leaves, a: seq<FieldChange>, b: seq<FieldChange>)
    requires Tallies(section, before, after, a) && Tallies(section, before, after, b)
    ensures a == b
  {
    assert |a| == |PathsOf(a)| && |b| == |PathsOf(b)|;
    forall path ensures path in PathsOf(a) <==> path in PathsOf(b) {
      FieldsMention(a, path);
      FieldsMention(b, path);
    }
    AscendingIsUnique(PathsOf(a), PathsOf(b));
    forall i | 0 <= i < |a| ensures a[i] == b[i] {
      assert a[i].field == PathsOf(a)[i] == PathsOf(b)[i] == b[i].field;
      assert Reports(section, before, after, a[i]) && Reports(section, before, after, b[i]);
    }
  }

  lemma {:induction false} FieldsMention(changes: seq<FieldChange>, path: string)
    ensures path in PathsOf(changes) <==> Mentions(changes, path)
  {
    if Mentions(changes, path) {
      var i :| 0 <= i < |changes| && changes[i].field == path;
      assert PathsOf(changes)[i] == path;
    }
  }

  // --- what an empty diff means ------------------------------------------------------------

  /** A document without its nulls and without the mappings that leaves empty. */
  function Trim(fields: Fields): Fields {
    match fields
    case Done => Done
    case Field(key, Leaf(value), rest) => if value == Null then Trim(rest) else Field(key, Leaf(value), Trim(rest))
    case Field(key, Branch(inner), rest) =>
      if Trim(inner) == Done then Trim(rest) else Field(key, Branch(Trim(inner)), Trim(rest))
  }

  /** A field as trimming leaves it. */
  function Trimmed(found: Option<Document>): Option<Document> {
    if found == None || found.value == Leaf(Null) then None
    else if found.value.Leaf? then found
    else if Trim(found.value.fields) == Done then None
    else Some(Branch(Trim(found.value.fields)))
  }

  lemma {:induction false} TrimAt(fields: Fields, key: string)
    requires IsDocument(fields)
    ensures FieldAt(Trim(fields), key) == Trimmed(FieldAt(fields, key))
  {
    if fields.Field? {
      TrimAt(fields.rest, key);
    }
  }

  lemma {:induction false} TrimIsClean(fields: Fields)
    requires IsDocument(fields) && DotFree(fields)
    ensures IsDocument(Trim(fields)) && DotFree(Trim(fields)) && NoEmpties(Trim(fields)) && NoNulls(Trim(fields))
    decreases fields
  {
    if fields.Field? {
      TrimIsClean(fields.rest);
      TrimAt(fields.rest, fields.key);
      if fields.document.Branch? {
        TrimIsClean(fields.document.fields);
      }
    }
  }

  lemma {:induction false} CleanIsTrim(fields: Fields)
    requires NoEmpties(fields) && NoNulls(fields)
    ensures Trim(fields) == fields
    decreases fields
  {
    if fields.Field? {
      CleanIsTrim(fields.rest);
      if fields.document.Branch? {
        CleanIsTrim(fields.document.fields);
      }
    }
  }

  /** What `get` reads at a path. */
  function Reading(fields: Fields, path: string): Value {
    var found := LookUp(fields, path);
    if found.Some? then found.value else Null
  }

  lemma {:induction false} TrimKeepsReadings(fields: Fields, path: string)
    requires IsDocument(fields)
    ensures Reading(Trim(fields), path) == Reading(fields, path)
    ensures LookUp(Trim(fields), path).Some? <==> Reading(fields, path) != Null
    decreases |path|
  {
    var found := FieldAt(fields, Head(path));
    TrimAt(fields, Head(path));
    if found.Some? {
      FieldInherits(fields, Head(path));
    }
    if IsBranch(found) && Dotted(path) {
      TrimKeepsReadings(found.value.fields, Tail(path));
    }
  }

  lemma {:induction false} SameMeaningSameLookUp(a: Fields, b: Fields, path: string)
    requires IsDocument(a) && IsDocument(b) && Meaning(a) == Meaning(b)
    ensures LookUp(a, path) == LookUp(b, path)
    decreases |path|
  {
    var key := Head(path);
    MeaningAt(a, key);
    MeaningAt(b, key);
    if key in Meaning(a) {
      FieldInherits(a, key);
      FieldInherits(b, key);
      if IsBranch(FieldAt(a, key)) && Dotted(path) {
        SameMeaningSameLookUp(FieldAt(a, key).value.fields, FieldAt(b, key).value.fields, Tail(path));
      }
    }
  }

  /** Flattening loses nothing of a document without dotted keys and empty mappings. */
  lemma {:induction false} FlattenRoundTrip(fields: Fields)
    requires IsDocument(fields) && DotFree(fields) && NoEmpties(fields)
    ensures var leaves := LeavesIn(Branch(fields), []);
            Unflatten(leaves, Longest(leaves.Keys)) == Meaning(fields)
  {
    FlattenTells(fields);
    var leaves := LeavesOf(fields, []);
    UnflattenRebuilds(leaves, fields, Longest(leaves.Keys));
  }

  lemma {:induction false} GetIsReading(fields: Fields, path: string)
    requires IsDocument(fields) && DotFree(fields)
    ensures Get(LeavesOf(fields, []), path) == Reading(fields, path)
  {
    FlattenTells(fields);
  }

  lemma {:induction false} SameReadingsSameMeaning(a: Fields, b: Fields)
    requires IsDocument(a) && DotFree(a) && IsDocument(b) && DotFree(b)
    requires forall path :: Reading(a, path) == Reading(b, path)
    ensures Meaning(Trim(a)) == Meaning(Trim(b))
  {
    TrimIsClean(a);
    TrimIsClean(b);
    var leaves := LeavesOf(Trim(a), []);
    FlattenTells(Trim(a));
    forall path ensures LookUp(Trim(a), path) == LookUp(Trim(b), path) {
      TrimKeepsReadings(a, path);
      TrimKeepsReadings(b, path);
    }
    UnflattenRebuilds(leaves, Trim(a), Longest(leaves.Keys));
    UnflattenRebuilds(leaves, Trim(b), Longest(leaves.Keys));
  }

  /** Without dotted keys, nothing is reported exactly when the documents agree up to nulls and the
      mappings that hold nothing but nulls. */
  lemma {:induction false} DiffIsEmptyExactly(section: string, a: Fields, b: Fields, changes: seq<FieldChange>)
    requires IsDocument(a) && DotFree(a) && IsDocument(b) && DotFree(b)
    requires Tallies(section, LeavesIn(Branch(a), []), LeavesIn(Branch(b), []), changes)
    ensures changes == [] <==> Meaning(Trim(a)) == Meaning(Trim(b))
  {
    forall path ensures Mentions(changes, path) <==> Reading(a, path) != Reading(b, path) {
      GetIsReading(a, path);
      GetIsReading(b, path);
    }
    if changes == [] {
      SameReadingsSameMeaning(a, b);
    } else {
      var path := changes[0].field;
      assert Mentions(changes, path);
      TrimIsClean(a);
      TrimIsClean(b);
      TrimKeepsReadings(a, path);
      TrimKeepsReadings(b, path);
      if Meaning(Trim(a)) == Meaning(Trim(b)) {
        SameMeaningSameLookUp(Trim(a), Trim(b), path);
        assert false;
      }
    }
  }

  // --- with dotted keys --------------------------------------------------------------------

  /** A leaf as it stands in a document: the keys that lead to it, joined by dots, and its value. */
  datatype Spelled = Spelled(path: string, value: Value)

  /** Every leaf in the order it is written, however its path comes about. */
  function SpellOut(fields: Fields, prefix: string): seq<Spelled> {
    match fields
    case Done => []
    case Field(key, document, rest) => SpellField(document, prefix + key) + SpellOut(rest, prefix)
  }

  function SpellField(document: Document, path: string): seq<Spelled> {
    match document
    case Leaf(value) => [Spelled(path, value)]
    case Branch(fields) => SpellOut(fields, path + ".")
  }

  predicate Spells(leaves: seq<Spelled>, path: string) {
    exists i :: 0 <= i < |leaves| && leaves[i].path == path
  }

  /** What the last of the first `n` leaves spelled so holds: null where there is none. */
  function LastSaid(leaves: seq<Spelled>, n: nat, path: string): Value
    requires n <= |leaves|
  {
    if n == 0 then Null else if leaves[n - 1].path == path then leaves[n - 1].value else LastSaid(leaves, n - 1, path)
  }

  predicate SameLast(before: seq<Spelled>, after: seq<Spelled>, path: string) {
    LastSaid(before, |before|, path) == LastSaid(after, |after|, path)
  }

  lemma {:induction false} LastSaidOfLeft(left: seq<Spelled>, right: seq<Spelled>, n: nat, path: string)
    requires n <= |left|
    ensures LastSaid(left + right, n, path) == LastSaid(left, n, path)
  {
    if n > 0 {
      LastSaidOfLeft(left, right, n - 1, path);
    }
  }

  lemma {:induction false} LastSaidOfBoth(left: seq<Spelled>, right: seq<Spelled>, n: nat, path: string)
    requires n <= |right|
    ensures LastSaid(left + right, |left| + n, path) ==
            if Spells(right[..n], path) then LastSaid(right, n, path) else LastSaid(left, |left|, path)
  {
    if n == 0 {
      LastSaidOfLeft(left, right, |left|, path);
    } else {
      LastSaidOfBoth(left, right, n - 1, path);
      SpellsOneMore(right[..n - 1], right[n - 1], path);
      assert right[..n] == right[..n - 1] + [right[n - 1]];
    }
  }

  lemma {:induction false} SpellsOneMore(leaves: seq<Spelled>, last: Spelled, path: string)
    ensures Spells(leaves + [last], path) <==> Spells(leaves, path) || last.path == path
  {
    SpellsBoth(leaves, [last], path);
    assert [last][0] == last;
  }

  lemma {:induction false} SpellsBoth(left: seq<Spelled>, right: seq<Spelled>, path: string)
    ensures Spells(left + right, path) <==> Spells(left, path) || Spells(right, path)
  {
    if Spells(left, path) {
      var i :| 0 <= i < |left| && left[i].path == path;
      assert (left + right)[i].path == path;
    }
    if Spells(right, path) {
      var i :| 0 <= i < |right| && right[i].path == path;
      assert (left + right)[|left| + i].path == path;
    }
  }

  lemma {:induction false} LeavesAreLast(fields: Fields, prefix: string, path: string)
    ensures var leaves := SpellOut(fields, prefix);
            && (path in LeavesOf(fields, prefix) <==> Spells(leaves, path))
            && Get(LeavesOf(fields, prefix), path) == LastSaid(leaves, |leaves|, path)
  {
    if fields.Field? {
      var own, rest := SpellField(fields.document, prefix + fields.key), SpellOut(fields.rest, prefix);
      FieldLeavesAreLast(fields.document, prefix + fields.key, path);
      LeavesAreLast(fields.rest, prefix, path);
      SpellsBoth(own, rest, path);
      LastSaidOfBoth(own, rest, |rest|, path);
      assert rest[..|rest|] == rest;
    }
  }

  lemma {:induction false} FieldLeavesAreLast(document: Document, key: string, path: string)
    ensures var leaves := SpellField(document, key);
            && (path in FieldLeaves(document, key) <==> Spells(leaves, path))
            && Get(FieldLeaves(document, key), path) == LastSaid(leaves, |leaves|, path)
  {
    match document
    case Leaf(value) =>
      assert [Spelled(key, value)][0].path == key;
      assert LastSaid([Spelled(key, value)], 0, path) == Null;
    case Branch(fields) => LeavesAreLast(fields, key + ".", path);
  }

  /** The last leaf written under each path holds the same on both sides, no leaf and a null being one. */
  ghost predicate SayTheSame(before: seq<Spelled>, after: seq<Spelled>) {
    forall path :: SameLast(before, after, path)
  }

  lemma {:induction false} NoMentionExactly(changes: seq<FieldChange>, before: seq<Spelled>, after: seq<Spelled>)
    requires forall path :: Mentions(changes, path) <==> !SameLast(before, after, path)
    ensures changes == [] <==> SayTheSame(before, after)
  {
    if changes != [] {
      assert Mentions(changes, changes[0].field);
    }
  }

  /** Whatever the keys: nothing is reported exactly when the last leaf written under each path holds
      the same in both documents. */
  lemma {:induction false} AnyDiffIsEmptyExactly(section: string, a: Fields, b: Fields, changes: seq<FieldChange>)
    requires Tallies(section, LeavesIn(Branch(a), []), LeavesIn(Branch(b), []), changes)
    ensures changes == [] <==> SayTheSame(SpellOut(a, []), SpellOut(b, []))
  {
    var before, after := SpellOut(a, []), SpellOut(b, []);
    forall path
      ensures Mentions(changes, path) <==> !SameLast(before, after, path)
    {
      LeavesAreLast(a, [], path);
      LeavesAreLast(b, [], path);
    }
    NoMentionExactly(changes, before, after);
  }

  /** On canonical documents (no dotted keys, no empty mappings, no nulls): exactly when they are equal. */
  lemma {:induction false} CanonicalDiffIsEquality(section: string, a: Fields, b: Fields, changes: seq<FieldChange>)
    requires IsDocument(a) && DotFree(a) && NoEmpties(a) && NoNulls(a)
    requires IsDocument(b) && DotFree(b) && NoEmpties(b) && NoNulls(b)
    requires Tallies(section, LeavesIn(Branch(a), []), LeavesIn(Branch(b), []), changes)
    ensures changes == [] <==> Meaning(a) == Meaning(b)
  {
    DiffIsEmptyExactly(section, a, b, changes);
    CleanIsTrim(a);
    CleanIsTrim(b);
  }

  /** Each of the three conditions is needed: a null, an empty mapping and a dotted key each hide a
      difference between two documents. */
  lemma {:induction false} HiddenDifferences(section: string, one: Value)
    requires one.Text?
    ensures var hidden := Field("a", Leaf(Null), Done);
            Meaning(hidden) != Meaning(Done) && Tallies(section, LeavesOf(hidden, []), LeavesOf(Done, []), [])
    ensures var hidden := Field("a", Branch(Done), Done);
            Meaning(hidden) != Meaning(Done) && Tallies(section, LeavesOf(hidden, []), LeavesOf(Done, []), [])
    ensures var dotted, nested := Field("a.b", Leaf(one), Done), Field("a", Branch(Field("b", Leaf(one), Done)), Done);
            Meaning(dotted) != Meaning(nested) && Tallies(section, LeavesOf(dotted, []), LeavesOf(nested, []), [])
  {
    assert Meaning(Done) == map[];
    assert "a" in Meaning(Field("a", Leaf(Null), Done));
    assert "a" in Meaning(Field("a", Branch(Done), Done));
    assert "a.b" in Meaning(Field("a.b", Leaf(one), Done));
    assert "a.b" !in Meaning(Field("a", Branch(Field("b", Leaf(one), Done)), Done)) by {
      assert |"a"| != |"a.b"|;
    }
    DottedLeaf(one);
  }

  lemma {:induction false} DottedLeaf(one: Value)
    ensures LeavesOf(Field("a.b", Leaf(one), Done), []) == map["a.b" := one]
    ensures LeavesOf(Field("a", Branch(Field("b", Leaf(one), Done)), Done), []) == map["a.b" := one]
  {
    assert [] + "a.b" == "a.b";
    var inner := Field("b", Leaf(one), Done);
    assert LeavesOf(inner, "a.") == map["a.b" := one] by {
      assert "a." + "b" == "a.b";
    }
    assert FieldLeaves(Branch(inner), [] + "a") == map["a.b" := one] by {
      assert [] + "a" + "." == "a.";
    }
  }

  // --- the changes carry one side to the other ---------------------------------------------

  /** The leaves that hold something. */
  function Present(leaves: Leaves): Leaves {
    map path | path in leaves && leaves[path] != Null :: leaves[path]
  }

  function ApplyOne(leaves: Leaves, change: FieldChange): Leaves {
    if change.now == Null then leaves - {change.field} else leaves[change.field := change.now]
  }

  function ApplyFirst(leaves: Leaves, changes: seq<FieldChange>, n: nat): Leaves
    requires n <= |changes|
  {
    if n == 0 then leaves else ApplyOne(ApplyFirst(leaves, changes, n - 1), changes[n - 1])
  }

  lemma {:induction false} ApplyFirstAt(
    section: string, before: Leaves, after: Leaves, changes: seq<FieldChange>, n: nat, path: string)
    requires n <= |changes| && Tallies(section, before, after, changes)
    ensures var now := ApplyFirst(Present(before), changes, n);
            && (path in now ==> now[path] != Null)
            && Get(now, path) == if Mentions(changes[..n], path) then Get(after, path) else Get(before, path)
  {
    if n > 0 {
      ApplyFirstAt(section, before, after, changes, n - 1, path);
      assert changes[..n] == changes[..n - 1] + [changes[n - 1]];
      MentionsMore(changes[..n - 1], changes[n - 1]);
      assert Reports(section, before, after, changes[n - 1]);
    }
  }

  /** Applying the reported changes to the old leaves gives the new leaves. */
  lemma {:induction false} ChangesApply(section: string, before: Leaves, after: Leaves, changes: seq<FieldChange>)
    requires Tallies(section, before, after, changes)
    ensures ApplyFirst(Present(before), changes, |changes|) == Present(after)
  {
    var now := ApplyFirst(Present(before), changes, |changes|);
    forall path
      ensures path in now <==> path in Present(after)
      ensures path in now ==> now[path] == Present(after)[path]
    {
      ApplyFirstAt(section, before, after, changes, |changes|, path);
      assert changes[..|changes|] == changes;
      assert Get(now, path) == Get(after, path);
    }
  }

  function Swapped(changes: seq<FieldChange>): seq<FieldChange> {
    seq(|changes|, i requires 0 <= i < |changes| => changes[i].(was := changes[i].now, now := changes[i].was))
  }

  /** Comparing the other way round reports the same paths with the sides exchanged, so the changes
      also carry the new leaves back to the old ones. */
  lemma {:induction false} ChangesRevert(section: string, before: Leaves, after: Leaves, changes: seq<FieldChange>)
    requires Tallies(section, before, after, changes)
    ensures Tallies(section, after, before, Swapped(changes))
    ensures ApplyFirst(Present(after), Swapped(changes), |changes|) == Present(before)
  {
    forall path ensures Mentions(Swapped(changes), path) <==> Get(before, path) != Get(after, path) {
      SwappedMentions(changes, path);
    }
    forall i | 0 <= i < |changes| ensures Reports(section, after, before, Swapped(changes)[i]) {
      assert Reports(section, before, after, changes[i]);
    }
    ChangesApply(section, after, before, Swapped(changes));
  }

  lemma {:induction false} SwappedMentions(changes: seq<FieldChange>, path: string)
    ensures Mentions(Swapped(changes), path) <==> Mentions(changes, path)
  {
    if Mentions(changes, path) {
      var i :| 0 <= i < |changes| && changes[i].field == path;
      assert Swapped(changes)[i].field == path;
    }
    if Mentions(Swapped(changes), path) {
      var i :| 0 <= i < |changes| && Swapped(changes)[i].field == path;
      assert changes[i].field == path;
    }
  }
}
