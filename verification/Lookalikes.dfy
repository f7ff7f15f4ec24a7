/** "Same value in, same placeholder out" over whole trips: exactly which values keep it, by how many
    placeholders the trip makes; and that different values do not meet in one. */
module Lookalikes {
  import opened Prelude
  import opened Numerals
  import opened Scrub
  import opened Spellings
  import opened ScrubFacts

  // --- where a value stands ------------------------------------------------------------------

  datatype Placed = Placed(path: Path, value: Scalar)

  /** The leaves of a payload in the order of the walk. */
  function Leaves(node: Node, path: Path): (leaves: seq<Placed>)
    decreases node
  {
    match node
    case Leaf(value) => [Placed(path, value)]
    case Branch(keyed, children) => ChildLeaves(children, keyed, path)
  }

  function ChildLeaves(children: Children, keyed: bool, path: Path): seq<Placed>
    decreases children
  {
    match children
    case End => []
    case Child(key, node, rest) =>
      Leaves(node, if keyed then path + [key] else path) + ChildLeaves(rest, keyed, path)
  }

  /** The value stands here, and a rule names the place. */
  predicate Named(leaf: Placed, value: Scalar, rules: Rules) {
    leaf.value == value && KindAt(leaf.path, rules).Some? && !IsShape(KindAt(leaf.path, rules).value, value)
  }

  /** What stands in the output where the named value stood in the input. */
  ghost predicate Replaces(
    leaves: seq<Placed>, out: seq<Placed>, value: Scalar, seen: map<Scalar, Scalar>, rules: Rules) {
    && |out| == |leaves|
    && forall a :: 0 <= a < |leaves| && Named(leaves[a], value, rules) ==> value in seen && out[a].value == seen[value]
  }

  lemma {:induction false} ReplacesJoin(
    left: seq<Placed>, leftOut: seq<Placed>, right: seq<Placed>, rightOut: seq<Placed>, value: Scalar,
    seen: map<Scalar, Scalar>, rules: Rules)
    requires Replaces(left, leftOut, value, seen, rules) && Replaces(right, rightOut, value, seen, rules)
    ensures Replaces(left + right, leftOut + rightOut, value, seen, rules)
  {
  }

  // --- a value unlike any placeholder --------------------------------------------------------

  lemma {:induction false} MintReplaces(reg: Register, kind: Kind, value: Scalar, rules: Rules, later: Register)
    requires Sound(reg, rules) && Later(Mint(reg, kind, value, rules).1, later)
    requires !IsShape(kind, value) && value !in later.minted
    ensures value in later.seen && Mint(reg, kind, value, rules).0 == later.seen[value]
  {
    MintKeeps(reg, kind, value, rules);
    assert value in Mint(reg, kind, value, rules).1.seen;
  }

  lemma {:induction false} WalkReplaces(
    reg: Register, node: Node, path: Path, value: Scalar, rules: Rules, later: Register)
    requires Sound(reg, rules) && Later(Walk(reg, node, path, rules).1, later) && value !in later.minted
    ensures Replaces(Leaves(node, path), Leaves(Walk(reg, node, path, rules).0, path), value, later.seen, rules)
    decreases node
  {
    match node
    case Leaf(original) =>
      var leaf := Placed(path, original);
      if Named(leaf, value, rules) {
        MintReplaces(reg, KindAt(path, rules).value, value, rules, later);
      }
    case Branch(keyed, children) => WalkChildrenReplaces(reg, keyed, children, path, value, rules, later);
  }

  lemma {:induction false} WalkChildrenReplaces(
    reg: Register, keyed: bool, children: Children, path: Path, value: Scalar, rules: Rules, later: Register)
    requires Sound(reg, rules) && Later(WalkChildren(reg, keyed, children, path, rules).1, later)
    requires value !in later.minted
    ensures Replaces(ChildLeaves(children, keyed, path),
                     ChildLeaves(WalkChildren(reg, keyed, children, path, rules).0, keyed, path), value, later.seen, rules)
    decreases children
  {
    match children
    case End =>
    case Child(key, node, rest) =>
      var below := if keyed then path + [key] else path;
      var (first, between) := Walk(reg, node, below, rules);
      var (others, after) := WalkChildren(between, keyed, rest, path, rules);
      WalkKeeps(reg, node, below, rules);
      WalkChildrenKeeps(between, keyed, rest, path, rules);
      LaterIsTransitive(between, after, later);
      WalkReplaces(reg, node, below, value, rules, later);
      WalkChildrenReplaces(between, keyed, rest, path, value, rules, later);
      ReplacesJoin(Leaves(node, below), Leaves(first, below), ChildLeaves(rest, keyed, path),
                   ChildLeaves(others, keyed, path), value, later.seen, rules);
  }

  /** The `i`-th document as it is written out. */
  function Output(documents: seq<Node>, i: nat, rules: Rules): Node
    requires i < |documents|
  {
    Walk(After(documents, i, rules), documents[i], [], rules).0
  }

  ghost predicate NamedAt(documents: seq<Node>, i: nat, a: nat, value: Scalar, rules: Rules)
    requires i < |documents|
  {
    a < |Leaves(documents[i], [])| && Named(Leaves(documents[i], [])[a], value, rules)
  }

  /** The placeholder written at a place; a walk keeps every place. */
  ghost predicate WrittenAt(documents: seq<Node>, i: nat, a: nat, placeholder: Scalar, rules: Rules)
    requires i < |documents|
  {
    var out := Leaves(Output(documents, i, rules), []);
    a < |out| && out[a].value == placeholder
  }

  /** Wherever in the trip rules name the value, one and the same placeholder is written. */
  ghost predicate StaysEqual(documents: seq<Node>, value: Scalar, rules: Rules) {
    exists placeholder :: IsWritten(documents, value, placeholder, rules)
  }

  ghost predicate IsWritten(documents: seq<Node>, value: Scalar, placeholder: Scalar, rules: Rules) {
    forall i: nat, a: nat :: i < |documents| && NamedAt(documents, i, a, value, rules) ==>
      WrittenAt(documents, i, a, placeholder, rules)
  }

  ghost function Final(documents: seq<Node>, rules: Rules): Register {
    After(documents, |documents|, rules)
  }

  /** Where a rule names a value that no placeholder so far looks like, the register's placeholder for it
      is written. */
  lemma {:induction false} UnlikeValueIsWritten(documents: seq<Node>, i: nat, a: nat, value: Scalar, rules: Rules)
    requires i < |documents| && NamedAt(documents, i, a, value, rules)
    requires !MadeWithin(value, Final(documents, rules).counts, rules)
    ensures value in Final(documents, rules).seen && value !in Final(documents, rules).minted
    ensures WrittenAt(documents, i, a, Final(documents, rules).seen[value], rules)
  {
    WalkedEarlier(documents, i, |documents|, rules);
    WalkReplaces(After(documents, i, rules), documents[i], [], value, rules, Final(documents, rules));
  }

  /** A value that looks like no placeholder the trip has made gets one placeholder over the whole of it,
      whichever kinds and documents it stands in. */
  lemma {:induction false} UnlikeValuesStayEqual(documents: seq<Node>, value: Scalar, rules: Rules)
    requires !MadeWithin(value, Final(documents, rules).counts, rules)
    ensures StaysEqual(documents, value, rules)
  {
    var seen := Final(documents, rules).seen;
    var placeholder := if value in seen then seen[value] else Null;
    forall i: nat, a: nat | i < |documents| && NamedAt(documents, i, a, value, rules)
      ensures WrittenAt(documents, i, a, placeholder, rules)
    {
      UnlikeValueIsWritten(documents, i, a, value, rules);
    }
    assert IsWritten(documents, value, placeholder, rules);
  }

  /** Two different values that look like no placeholder the trip has made are written alike nowhere in
      it, unless as digits, hex or a position. */
  lemma {:induction false} DifferentValuesStayApart(
    documents: seq<Node>, i: nat, a: nat, one: Scalar, j: nat, b: nat, other: Scalar, placeholder: Scalar, rules: Rules)
    requires i < |documents| && j < |documents| && one != other
    requires NamedAt(documents, i, a, one, rules) && NamedAt(documents, j, b, other, rules)
    requires !MadeWithin(one, Final(documents, rules).counts, rules)
    requires !MadeWithin(other, Final(documents, rules).counts, rules)
    requires WrittenAt(documents, i, a, placeholder, rules) && WrittenAt(documents, j, b, placeholder, rules)
    ensures !IsSpelled(placeholder, rules)
  {
    var final := Final(documents, rules);
    UnlikeValueIsWritten(documents, i, a, one, rules);
    UnlikeValueIsWritten(documents, j, b, other, rules);
    TripKeeps(documents, |documents|, |documents|, rules);
    assert Share(final.seen, final.minted, one, other);
  }

  /** A swept text with every match replaced by what a register holds for it. */
  function Replaced(pieces: seq<Piece>, n: nat, seen: map<Scalar, Scalar>, rules: Rules): string
    requires n <= |pieces|
  {
    if n == 0 then []
    else
      Replaced(pieces, n - 1, seen, rules)
      + match pieces[n - 1]
        case Kept(kept) => kept
        case Matched(found) => if Text(found) in seen then rules.render(seen[Text(found)]) else found
  }

  /** What a sweep finds stands for the same placeholder as where a rule names it: the one the register
      holds at any later time. */
  lemma {:induction false} SweepReplaces(
    reg: Register, kind: Kind, pieces: seq<Piece>, n: nat, rules: Rules, later: Register)
    requires n <= |pieces| && Sound(reg, rules) && Later(Swept(reg, kind, pieces, n, rules).1, later)
    requires forall i :: 0 <= i < n && pieces[i].Matched? ==>
               !IsShape(kind, Text(pieces[i].text)) && Text(pieces[i].text) !in later.minted
    ensures Swept(reg, kind, pieces, n, rules).0 == Replaced(pieces, n, later.seen, rules)
  {
    if n > 0 {
      SweptKeeps(reg, kind, pieces, n - 1, rules);
      var before := Swept(reg, kind, pieces, n - 1, rules).1;
      if pieces[n - 1].Matched? {
        var value := Text(pieces[n - 1].text);
        MintKeeps(before, kind, value, rules);
        LaterIsTransitive(before, Mint(before, kind, value, rules).1, later);
        MintReplaces(before, kind, value, rules, later);
      }
      SweepReplaces(reg, kind, pieces, n - 1, rules, later);
    }
  }

  // --- a value some placeholder looks like ---------------------------------------------------

  predicate Names(path: Path, kind: Kind, rules: Rules) {
    path != [] && rules.kindOf(path) == Some(kind)
  }

  /** The key tables name every kind somewhere. */
  ghost predicate NamesEveryKind(rules: Rules) {
    forall kind :: IsSomewhere(kind, rules)
  }

  ghost predicate IsSomewhere(kind: Kind, rules: Rules) {
    exists path :: Names(path, kind, rules)
  }

  /** `str`: a text is itself, and no value but the empty text is written as nothing. */
  ghost predicate Renders(rules: Rules) {
    forall value: Scalar :: (value.Text? ==> rules.render(value) == value.text) && (!value.Text? ==> rules.render(value) != "")
  }

  /** A document with one value, under one path. */
  function Nested(path: Path, i: nat, value: Scalar): Node
    requires i <= |path|
    decreases |path| - i
  {
    if i == |path| then Leaf(value) else Branch(true, Child(path[i], Nested(path, i + 1, value), End))
  }

  lemma {:induction false} OneChildWalk(
    reg: Register, key: string, node: Node, path: Path, out: Node, after: Register, rules: Rules)
    requires Walk(reg, node, path + [key], rules) == (out, after)
    ensures Walk(reg, Branch(true, Child(key, node, End)), path, rules) == (Branch(true, Child(key, out, End)), after)
  {
    assert WalkChildren(after, true, End, path, rules) == (End, after);
    assert WalkChildren(reg, true, Child(key, node, End), path, rules) == (Child(key, out, End), after);
  }

  lemma {:induction false} NestedWalk(reg: Register, path: Path, i: nat, value: Scalar, kind: Kind, rules: Rules)
    requires i <= |path| && Names(path, kind, rules)
    ensures var (out, after) := Mint(reg, kind, value, rules);
            Walk(reg, Nested(path, i, value), path[..i], rules) == (Nested(path, i, out), after)
    decreases |path| - i
  {
    if i == |path| {
      assert path[..i] == path;
    } else {
      assert path[..i] + [path[i]] == path[..i + 1];
      NestedWalk(reg, path, i + 1, value, kind, rules);
      var (out, after) := Mint(reg, kind, value, rules);
      OneChildWalk(reg, path[i], Nested(path, i + 1, value), path[..i], Nested(path, i + 1, out), after, rules);
    }
  }

  lemma {:induction false} NestedLeaves(path: Path, i: nat, value: Scalar)
    requires i <= |path|
    ensures Leaves(Nested(path, i, value), path[..i]) == [Placed(path, value)]
    decreases |path| - i
  {
    if i == |path| {
      assert path[..i] == path;
    } else {
      assert path[..i] + [path[i]] == path[..i + 1];
      NestedLeaves(path, i + 1, value);
      assert ChildLeaves(End, true, path[..i]) == [];
    }
  }

  lemma {:induction false} AfterPrefix(documents: seq<Node>, more: seq<Node>, n: nat, rules: Rules)
    requires n <= |documents| <= |more| && documents <= more
    ensures After(more, n, rules) == After(documents, n, rules)
  {
    if n > 0 {
      AfterPrefix(documents, more, n - 1, rules);
      assert more[n - 1] == documents[n - 1];
    }
  }

  /** The trip's last document holds just the value, where a rule of this kind names it. */
  ghost predicate EndsIn(documents: seq<Node>, kind: Kind, value: Scalar, placeholder: Scalar, rules: Rules) {
    && documents != []
    && (!IsShape(kind, value) ==> NamedAt(documents, |documents| - 1, 0, value, rules))
    && WrittenAt(documents, |documents| - 1, 0, placeholder, rules)
  }

  /** Any value may come next in a trip, under any kind. */
  lemma {:induction false} ComesNext(
    documents: seq<Node>, kind: Kind, value: Scalar, rules: Rules) returns (more: seq<Node>)
    requires NamesEveryKind(rules)
    ensures |more| == |documents| + 1 && documents <= more
    ensures Final(more, rules) == Mint(Final(documents, rules), kind, value, rules).1
    ensures EndsIn(more, kind, value, Mint(Final(documents, rules), kind, value, rules).0, rules)
  {
    assert IsSomewhere(kind, rules);
    var path :| Names(path, kind, rules);
    var document, n := Nested(path, 0, value), |documents|;
    more := documents + [document];
    AfterPrefix(documents, more, n, rules);
    var reg := Final(documents, rules);
    NestedWalk(reg, path, 0, value, kind, rules);
    NestedLeaves(path, 0, value);
    NestedLeaves(path, 0, Mint(reg, kind, value, rules).0);
    assert path[..0] == [];
    assert Output(more, n, rules) == Nested(path, 0, Mint(reg, kind, value, rules).0);
    assert Leaves(document, []) == [Placed(path, value)];
  }

  // --- widths --------------------------------------------------------------------------------

  /** A placeholder is never a value the scrubber passes over. */
  lemma {:induction false} PlaceholderIsSomething(kind: Kind, n: nat, original: Scalar, rules: Rules)
    ensures var placeholder := Placeholder(kind, n, original, rules);
            (placeholder.Text? && placeholder.text != "") || placeholder == Number(0.0)
  {
    if KeepsWidth(kind) {
      WidePlaceholder(kind, n, original, rules);
    } else if Spells(kind) {
      SpelledHasNoFigure(kind, n, original, rules);
    }
  }

  function Run(c: char, width: nat): (text: string)
    ensures |text| == width && forall i :: 0 <= i < width ==> text[i] == c
  {
    seq(width, _ => c)
  }

  /** A text longer than every text seen, and than a width. */
  ghost function Unseen(reg: Register, width: nat): (value: Scalar)
    ensures value.Text? && |value.text| > width && value !in reg.seen
  {
    var texts := set value | value in reg.seen && value.Text? :: value.text;
    var text := Run('x', Max(Longest(texts), width + 1));
    assert text !in texts;
    Text(text)
  }

  // --- reaching a number ---------------------------------------------------------------------

  /** Nothing of at most this width came into a register that keeps widths. */
  ghost predicate OnlyWider(before: Register, after: Register, width: nat) {
    forall text :: |text| <= width && Text(text) in after.seen ==> Text(text) in before.seen
  }

  /** Only this kind has made more placeholders. */
  predicate OnlyCounts(kind: Kind, before: map<Kind, nat>, after: map<Kind, nat>) {
    forall other :: other != kind ==> Count(after, other) == Count(before, other)
  }

  lemma {:induction false} EnterCounts(reg: Register, kind: Kind, original: Scalar, placeholder: Scalar)
    ensures var after := Enter(reg, kind, Count(reg.counts, kind) + 1, original, placeholder);
            Count(after.counts, kind) == Count(reg.counts, kind) + 1 && OnlyCounts(kind, reg.counts, after.counts)
  {
  }

  lemma {:induction false} EnterIsWider(
    reg: Register, kind: Kind, n: nat, original: string, placeholder: string, width: nat)
    requires |original| > width && |placeholder| > width
    ensures OnlyWider(reg, Enter(reg, kind, n, Text(original), Text(placeholder)), width)
  {
  }

  lemma {:induction false} FillerIsWider(reg: Register, kind: Kind, width: nat, rules: Rules)
    requires Renders(rules)
    ensures var after := Mint(reg, kind, Unseen(reg, width), rules).1;
            && Count(after.counts, kind) == Count(reg.counts, kind) + 1 && OnlyCounts(kind, reg.counts, after.counts)
            && (KeepsWidth(kind) ==> OnlyWider(reg, after, width))
  {
    var filler, n := Unseen(reg, width), Count(reg.counts, kind) + 1;
    var placeholder := Placeholder(kind, n, filler, rules);
    MintsNew(reg, kind, filler, rules);
    EnterCounts(reg, kind, filler, placeholder);
    if KeepsWidth(kind) {
      assert |rules.render(filler)| > width;
      WidePlaceholder(kind, n, filler, rules);
      EnterIsWider(reg, kind, n, filler.text, placeholder.text, width);
    }
  }

  /** The trip so far, gone on until the kind has given its first `n` placeholders. */
  lemma {:induction false} Reach(documents: seq<Node>, kind: Kind, n: nat, width: nat, rules: Rules)
    returns (more: seq<Node>)
    requires NamesEveryKind(rules) && Renders(rules) && Count(Final(documents, rules).counts, kind) <= n
    ensures documents <= more
    ensures Count(Final(more, rules).counts, kind) == n
    ensures OnlyCounts(kind, Final(documents, rules).counts, Final(more, rules).counts)
    ensures KeepsWidth(kind) ==> OnlyWider(Final(documents, rules), Final(more, rules), width)
    decreases n - Count(Final(documents, rules).counts, kind)
  {
    var reg := Final(documents, rules);
    if Count(reg.counts, kind) == n {
      more := documents;
    } else {
      var next := ComesNext(documents, kind, Unseen(reg, width), rules);
      FillerIsWider(reg, kind, width, rules);
      more := Reach(next, kind, n, width, rules);
    }
  }

  lemma {:induction false} Third(width: nat, a: Scalar, b: Scalar) returns (other: Scalar)
    requires width > 0
    ensures other.Text? && |other.text| == width && other != a && other != b
  {
    var x, y, z := Run('x', width), Run('y', width), Run('z', width);
    assert x[0] == 'x' && y[0] == 'y' && z[0] == 'z';
    other := Text(if Text(x) != a && Text(x) != b then x else if Text(y) != a && Text(y) != b then y else z);
  }

  /** Another value this kind would number alike, that only two texts of its width could hide. */
  lemma {:induction false} Alike(
    kind: Kind, n: nat, original: Scalar, first: Register, reg: Register, a: Scalar, b: Scalar, rules: Rules)
    returns (other: Scalar)
    requires n > 0 && !IsShape(kind, original) && kind != Geo && Renders(rules)
    requires forall value :: value in first.seen ==> value == a || value == b
    requires KeepsWidth(kind) ==> OnlyWider(first, reg, |rules.render(original)|)
    ensures other !in reg.seen && !IsShape(kind, other)
    ensures Placeholder(kind, n, other, rules) == Placeholder(kind, n, original, rules)
  {
    if KeepsWidth(kind) {
      other := Third(|rules.render(original)|, a, b);
      assert rules.render(other) == other.text;
    } else {
      other := Unseen(reg, 0);
    }
  }

  /** A kind the value is not a placeholder of, and that would make it another one. */
  lemma {:induction false} Elsewhere(kind: Kind, value: Scalar, rules: Rules) returns (other: Kind)
    ensures other in {User, Person, Label} && other != kind && Placeholder(other, 1, value, rules) != value
  {
    assert Decimal(1) == "1";
    var user, person, named := "loonuser" + "1", "Loon User " + "1", "Redacted " + "1";
    assert user[0] == 'l' && person[0] == 'L' && named[0] == 'R';
    other := if kind != User && value != Text(user) then User
             else if kind != Person && value != Text(person) then Person else Label;
  }

  /** A value not seen before, whose placeholder is the value looked for, comes next. */
  lemma {:induction false} NextMakes(documents: seq<Node>, kind: Kind, other: Scalar, value: Scalar, rules: Rules)
    returns (more: seq<Node>)
    requires NamesEveryKind(rules) && !IsShape(kind, other) && other !in Final(documents, rules).seen
    requires Placeholder(kind, Count(Final(documents, rules).counts, kind) + 1, other, rules) == value
    ensures documents <= more && value in Final(more, rules).minted
    ensures Count(Final(more, rules).counts, kind) == Count(Final(documents, rules).counts, kind) + 1
    ensures OnlyCounts(kind, Final(documents, rules).counts, Final(more, rules).counts)
  {
    MintsNew(Final(documents, rules), kind, other, rules);
    EnterCounts(Final(documents, rules), kind, other, value);
    more := ComesNext(documents, kind, other, rules);
  }

  /** A trip that has just met the value goes on to make it a placeholder, the kind's `n`-th. */
  lemma {:induction false} BecomesPlaceholder(
    documents: seq<Node>, value: Scalar, first: Scalar, kind: Kind, n: nat, original: Scalar, rules: Rules)
    returns (more: seq<Node>)
    requires NamesEveryKind(rules) && Renders(rules) && Makes(kind, n, original, value, rules) && kind != Geo
    requires Count(Final(documents, rules).counts, kind) == 0
    requires forall one :: one in Final(documents, rules).seen ==> one == value || one == first
    ensures documents <= more && value in Final(more, rules).minted
    ensures Count(Final(more, rules).counts, kind) == n
    ensures OnlyCounts(kind, Final(documents, rules).counts, Final(more, rules).counts)
  {
    var reached := Reach(documents, kind, n - 1, |rules.render(original)|, rules);
    var other := Alike(kind, n, original, Final(documents, rules), Final(reached, rules), value, first, rules);
    more := NextMakes(reached, kind, other, value, rules);
  }

  /** A position's placeholder is not numbered: the next position met makes it. */
  lemma {:induction false} BecomesPosition(
    documents: seq<Node>, value: Scalar, first: Scalar, original: Scalar, rules: Rules)
    returns (more: seq<Node>)
    requires NamesEveryKind(rules) && Placeholder(Geo, 1, original, rules) == value && first.Text?
    requires Count(Final(documents, rules).counts, Geo) == 0
    requires forall one :: one in Final(documents, rules).seen ==> one == value || one == first
    ensures documents <= more && value in Final(more, rules).minted
    ensures Count(Final(more, rules).counts, Geo) == 1
    ensures OnlyCounts(Geo, Final(documents, rules).counts, Final(more, rules).counts)
  {
    var other := if original.Text? then Unseen(Final(documents, rules), 0) else Number(1.0);
    more := NextMakes(documents, Geo, other, value, rules);
  }

  lemma {:induction false} PlaceStays(
    documents: seq<Node>, more: seq<Node>, i: nat, value: Scalar, placeholder: Scalar, rules: Rules)
    requires documents <= more && i < |documents|
    requires NamedAt(documents, i, 0, value, rules) && WrittenAt(documents, i, 0, placeholder, rules)
    ensures NamedAt(more, i, 0, value, rules) && WrittenAt(more, i, 0, placeholder, rules)
  {
    AfterPrefix(documents, more, i, rules);
    assert more[i] == documents[i];
  }

  lemma {:induction false} TwoPlaceholders(
    documents: seq<Node>, i: nat, j: nat, value: Scalar, one: Scalar, other: Scalar, rules: Rules)
    requires i < |documents| && j < |documents| && one != other
    requires NamedAt(documents, i, 0, value, rules) && WrittenAt(documents, i, 0, one, rules)
    requires NamedAt(documents, j, 0, value, rules) && WrittenAt(documents, j, 0, other, rules)
    ensures !StaysEqual(documents, value, rules)
  {
    forall placeholder
      ensures !IsWritten(documents, value, placeholder, rules)
    {
    }
  }

  lemma {:induction false} FirstMint(value: Scalar, place: Kind, first: Scalar, rules: Rules)
    requires !IsShape(place, value) && first == Placeholder(place, 1, value, rules)
    ensures Mint(EMPTY, place, value, rules) == (first, Enter(EMPTY, place, 1, value, first))
  {
  }

  /** A trip that meets the value alone, under a kind that makes something else of it. */
  lemma {:induction false} MeetsFirst(value: Scalar, kind: Kind, place: Kind, rules: Rules)
    returns (met: seq<Node>, first: Scalar)
    requires NamesEveryKind(rules) && !IsShape(place, value)
    requires place in {User, Person, Label} && place != kind && Placeholder(place, 1, value, rules) != value
    ensures |met| == 1 && first.Text? && first != value
    ensures NamedAt(met, 0, 0, value, rules) && WrittenAt(met, 0, 0, first, rules)
    ensures forall other :: Count(Final(met, rules).counts, other) == if other == place then 1 else 0
    ensures forall one :: one in Final(met, rules).seen ==> one == value || one == first
  {
    first := Placeholder(place, 1, value, rules);
    FirstMint(value, place, first, rules);
    met := ComesNext([], place, value, rules);
  }

  /** What follows a trip that has made the value a placeholder writes the value as itself. */
  lemma {:induction false} MeetsAgain(documents: seq<Node>, value: Scalar, place: Kind, rules: Rules)
    returns (more: seq<Node>)
    requires NamesEveryKind(rules) && !IsShape(place, value) && value in Final(documents, rules).minted
    ensures |more| == |documents| + 1 && documents <= more
    ensures NamedAt(more, |documents|, 0, value, rules) && WrittenAt(more, |documents|, 0, value, rules)
    ensures Final(more, rules).counts == Final(documents, rules).counts
  {
    TripKeeps(documents, |documents|, |documents|, rules);
    more := ComesNext(documents, place, value, rules);
  }

  /** No kind has made more than `limit` placeholders over the trip. */
  ghost predicate Within(documents: seq<Node>, limit: nat, rules: Rules) {
    forall kind :: Count(Final(documents, rules).counts, kind) <= limit
  }

  lemma {:induction false} BecomesMade(
    met: seq<Node>, value: Scalar, first: Scalar, place: Kind, kind: Kind, n: nat, original: Scalar, rules: Rules)
    returns (made: seq<Node>)
    requires NamesEveryKind(rules) && Renders(rules) && Makes(kind, n, original, value, rules)
    requires place != kind && first.Text?
    requires forall other :: Count(Final(met, rules).counts, other) == if other == place then 1 else 0
    requires forall one :: one in Final(met, rules).seen ==> one == value || one == first
    ensures met <= made && value in Final(made, rules).minted && Within(made, n, rules)
  {
    if kind == Geo {
      made := BecomesPosition(met, value, first, original, rules);
    } else {
      made := BecomesPlaceholder(met, value, first, kind, n, original, rules);
    }
  }

  /** A value that looks like a kind's `n`-th placeholder is written two ways by some trip in which no
      kind makes more than `n`. */
  lemma {:induction false} LookalikesLoseTheirReplacement(
    value: Scalar, kind: Kind, n: nat, original: Scalar, rules: Rules)
    returns (documents: seq<Node>)
    requires NamesEveryKind(rules) && Renders(rules) && Makes(kind, n, original, value, rules)
    ensures Within(documents, n, rules) && !StaysEqual(documents, value, rules)
  {
    assert value != Null && !value.Flag? && value != Text("") by {
      PlaceholderIsSomething(kind, n, original, rules);
    }
    var place := Elsewhere(kind, value, rules);
    var met, first := MeetsFirst(value, kind, place, rules);
    var made := BecomesMade(met, value, first, place, kind, n, original, rules);
    documents := MeetsAgain(made, value, place, rules);
    PlaceStays(met, documents, 0, value, first, rules);
    TwoPlaceholders(documents, 0, |made|, value, first, value, rules);
  }

  /** Whatever the limit: over every trip in which no kind makes more placeholders, equal values get equal
      placeholders, whichever rules name them and in whichever documents, exactly when the value looks
      like none of the first so many of any kind. */
  lemma {:induction false} EqualValuesStayEqual(value: Scalar, limit: nat, rules: Rules)
    requires NamesEveryKind(rules) && Renders(rules)
    ensures (forall documents :: Within(documents, limit, rules) ==> StaysEqual(documents, value, rules))
            <==> !LooksMade(value, limit, rules)
  {
    if LooksMade(value, limit, rules) {
      var kind, n: nat, original :| n <= limit && Makes(kind, n, original, value, rules);
      var documents := LookalikesLoseTheirReplacement(value, kind, n, original, rules);
      assert Within(documents, limit, rules) && !StaysEqual(documents, value, rules);
    } else {
      forall documents | Within(documents, limit, rules)
        ensures StaysEqual(documents, value, rules)
      {
        assert !MadeWithin(value, Final(documents, rules).counts, rules);
        UnlikeValuesStayEqual(documents, value, rules);
      }
    }
  }

  /** A number no kind has passed. */
  ghost function Largest(counts: map<Kind, nat>): (limit: nat)
    ensures forall kind :: Count(counts, kind) <= limit
    decreases |counts|
  {
    if counts == map[] then 0
    else
      var kind :| kind in counts;
      var rest := counts - {kind};
      assert forall other :: other != kind ==> Count(counts, other) == Count(rest, other);
      Max(counts[kind], Largest(rest))
  }

  /** Over every trip whatever: exactly when the value looks like no placeholder of any number. */
  lemma {:induction false} ValuesEverStayEqual(value: Scalar, rules: Rules)
    requires NamesEveryKind(rules) && Renders(rules)
    ensures (forall documents :: StaysEqual(documents, value, rules)) <==> forall limit :: !LooksMade(value, limit, rules)
  {
    if limit: nat :| LooksMade(value, limit, rules) {
      EqualValuesStayEqual(value, limit, rules);
    } else {
      forall documents
        ensures StaysEqual(documents, value, rules)
      {
        var limit := Largest(Final(documents, rules).counts);
        assert Within(documents, limit, rules);
        EqualValuesStayEqual(value, limit, rules);
      }
    }
  }

  // --- figures -------------------------------------------------------------------------------

  /** A text of figures is decimal where it can be. */
  function FigureBase(text: string): Base {
    if AreFigures(text, Ten) then Ten else Sixteen
  }

  /** The first number whose last figures a text of figures is: the one it says, or for zeros the first
      with as many. */
  function FirstNumber(text: string): nat {
    var base := FigureBase(text);
    if Value(text, base) > 0 then Value(text, base) else Power(base, |text|)
  }

  lemma {:induction false} LastOfFirst(text: string, base: Base)
    requires AreFigures(text, base)
    ensures Last(if Value(text, base) > 0 then Value(text, base) else Power(base, |text|), base, |text|) == text
  {
    FiguresAreOwnLast(text, base);
    LastOfPower(base, |text|);
  }

  lemma {:induction false} FirstNumberMakes(text: string, rules: Rules)
    requires text != "" && AreFigures(text, Sixteen) && Renders(rules)
    ensures Makes(if FigureBase(text) == Ten then Digits else Hex, FirstNumber(text), Text(text), Text(text), rules)
  {
    assert rules.render(Text(text)) == text;
    LastOfFirst(text, FigureBase(text));
    WidePlaceholder(if FigureBase(text) == Ten then Digits else Hex, FirstNumber(text), Text(text), rules);
  }

  lemma {:induction false} ZeroInBoth(text: string)
    requires Value(text, Ten) == 0
    ensures Value(text, Sixteen) == 0
  {
    if text != [] {
      ZeroInBoth(text[..|text| - 1]);
    }
  }

  lemma {:induction false} RemainderBounds(n: nat, power: nat)
    requires n > 0 && power > 0
    ensures n % power <= n && (n % power == 0 ==> power <= n)
  {
  }

  lemma {:induction false} LastBounds(text: string, base: Base, n: nat)
    requires n > 0 && Last(n, base, |text|) == text
    ensures Value(text, base) <= n && (Value(text, base) == 0 ==> Power(base, |text|) <= n)
  {
    LastReads(n, base, |text|);
    RemainderBounds(n, Power(base, |text|));
  }

  /** No number below its first has a text's figures last, in either base. */
  lemma {:induction false} FirstNumberIsFirst(text: string, base: Base, n: nat)
    requires n > 0 && AreFigures(text, base) && Last(n, base, |text|) == text
    ensures FirstNumber(text) <= n
  {
    LastBounds(text, base, n);
    if base == Sixteen && FigureBase(text) == Ten {
      SixteenSaysMore(text);
      PowersCompare(|text|);
      if Value(text, Ten) == 0 {
        ZeroInBoth(text);
      }
    }
  }

  /** An identifier of digits, or of lower-case hex, looks like one of the first `limit` placeholders
      exactly when the number it says is among them. */
  lemma {:induction false} FiguresLookMadeExactly(text: string, limit: nat, rules: Rules)
    requires text != "" && AreFigures(text, Sixteen) && Renders(rules)
    ensures LooksMade(Text(text), limit, rules) <==> FirstNumber(text) <= limit
  {
    FirstNumberMakes(text, rules);
    forall kind, n: nat, original | n <= limit && Makes(kind, n, original, Text(text), rules)
      ensures FirstNumber(text) <= limit
    {
      MadeFigures(kind, n, original, text, rules);
    }
  }

  lemma {:induction false} MadeFigures(kind: Kind, n: nat, original: Scalar, text: string, rules: Rules)
    requires AreFigures(text, Sixteen) && Renders(rules) && Makes(kind, n, original, Text(text), rules)
    ensures FirstNumber(text) <= n
  {
    if Spells(kind) {
      SpelledHasNoFigure(kind, n, original, rules);
    } else if KeepsWidth(kind) {
      WidePlaceholder(kind, n, original, rules);
      FirstNumberIsFirst(text, BaseOf(kind), n);
    }
  }
}
